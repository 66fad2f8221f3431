/** file.c on regular files: reads and writes through an open file, where a write is cut into
transactions small enough for the log. */
module FileIo {
  import opened Blocks
  import opened FileModel
  import opened FileSystem

  /** Bytes per transaction: room for the i-node, the indirect block, two blocks of slop, and an
  allocation block for each data block. */
  const MAXCHUNK := (MAXOPBLOCKS - 1 - 1 - 2) / 2 * 512

  /** A chunk of a write logs at most MAXOPBLOCKS distinct blocks, at whatever offset: when it
  straddles four blocks it starts inside the first one, which then exists. */
  lemma ChunkFits(off: nat, n: nat)
    requires n <= MAXCHUNK
    ensures Touched(off, n) <= 4 && Fresh(off, n) <= 3
    ensures Touched(off, n) + Fresh(off, n) + 3 <= MAXOPBLOCKS
  {
    if n > 0 {
      assert (off + n - 1) / BSIZE <= (off + MAXCHUNK - 1) / BSIZE;
      assert (off + MAXCHUNK - 1) / BSIZE <= off / BSIZE + 3;
    }
  }

  /** Chunks of more than MAXCHUNK bytes would not fit: the bound is reached, and one byte more can exceed it. */
  lemma ChunkTight()
    ensures exists off: nat {:trigger Touched(off, MAXCHUNK)} ::
              Touched(off, MAXCHUNK) + Fresh(off, MAXCHUNK) + 3 == MAXOPBLOCKS
    ensures exists off: nat {:trigger Touched(off, MAXCHUNK + 1)} ::
              Touched(off, MAXCHUNK + 1) + Fresh(off, MAXCHUNK + 1) + 3 > MAXOPBLOCKS
  {
    assert Touched(256, MAXCHUNK) == 4 && Fresh(256, MAXCHUNK) == 3;
    assert Touched(0, MAXCHUNK + 1) == 4 && Fresh(0, MAXCHUNK + 1) == 4;
  }

  lemma SpliceTwice<T>(s: seq<T>, off: nat, a: seq<T>, b: seq<T>)
    requires off <= |s|
    ensures Splice(Splice(s, off, a), off + |a|, b) == Splice(s, off, a + b)
  {}

  /** i bytes of n are everything, or a number of whole chunks. */
  ghost predicate WholeChunks(i: nat, n: nat) {
    i <= n && (i == n || i % MAXCHUNK == 0)
  }

  lemma NextWhole(i: nat, n: nat)
    requires WholeChunks(i, n) && i < n
    ensures WholeChunks(i + if n - i > MAXCHUNK then MAXCHUNK else n - i, n)
  {}

  class File {
    const ino: nat
    const readable: bool
    const writable: bool
    var off: nat

    constructor (ino: nat, readable: bool, writable: bool)
      ensures this.ino == ino && this.readable == readable && this.writable == writable && off == 0
    {
      this.ino, this.readable, this.writable, off := ino, readable, writable, 0;
    }

    /** fileread: the bytes at the current offset, clipped to the end of the file; the offset moves
    behind them. */
    method Read(fs: Fs, n: nat) returns (r: Outcome, dst: seq<byte>)
      requires fs.Valid() && ino < |fs.inodes| && off < WORD_LIMIT && n < WORD_LIMIT
      modifies this`off, fs
      ensures fs.Valid() && fs.Abs() == old(fs.Abs()) && fs.inodes == old(fs.inodes) && !r.Panic?
      ensures r.Refused? <==> !readable || old(off) > fs.inodes[ino].size || old(off) + n >= WORD_LIMIT
      ensures r.Refused? ==> off == old(off)
      ensures r.Done? ==>
                var file := old(fs.File(ino));
                && dst == file[old(off)..if old(off) + n > |file| then |file| else old(off) + n]
                && r.count == |dst| && off == old(off) + |dst|
    {
      dst := [];
      if !readable {
        return Refused, dst;
      }
      r, dst := fs.Readi(ino, off, n);
      if r.Done? && r.count > 0 {
        off := off + r.count;
      }
    }

    /** One transaction of filewrite: begin_op, writei, end_op. */
    method WriteChunk(fs: Fs, chunk: seq<byte>) returns (r: Outcome)
      requires fs.Valid() && ino < |fs.inodes| && off < WORD_LIMIT && 0 < |chunk| <= MAXCHUNK
      modifies this`off, fs
      ensures r.Refused? <==> old(off) > old(fs.inodes[ino].size) || old(off) + |chunk| > MAXFILE * BSIZE
      ensures r.Refused? ==> fs.Valid() && fs.Abs() == old(fs.Abs()) && fs.inodes == old(fs.inodes) && off == old(off)
      ensures r.Done? ==> r.count == |chunk| && fs.Valid() && |fs.inodes| == |old(fs.inodes)|
      ensures r.Done? ==> off == old(off) + |chunk|
      ensures r.Done? ==> fs.File(ino) == Splice(old(fs.File(ino)), old(off), chunk)
      ensures r.Done? ==> forall j :: 0 <= j < |fs.inodes| && j != ino ==> fs.File(j) == old(fs.File(j))
      ensures r.Done? ==> |fs.logged| <= MAXOPBLOCKS && Covered(old(fs.blocks), {}, fs.blocks, fs.logged)
      ensures r.Done? && old(fs.Tidy()) ==> fs.Tidy()
      ensures r.Done? ==> Allocates(old(fs.Abs()), fs.Abs(), ino)
      ensures r.Done? && fs.inodes != old(fs.inodes) ==> IBlock(fs.sb, ino) in fs.logged
      ensures r.Panic? ==> |old(fs.blocks)| <= |old(fs.used)| + Fresh(old(off), |chunk|)
    {
      fs.logged := {};
      ghost var before := fs.logged;
      assert chunk[..|chunk|] == chunk;
      r := fs.Writei(ino, chunk, off, |chunk|);
      if r.Done? {
        off := off + r.count;
        ChunkFits(old(off), |chunk|);
        assert fs.logged - before == fs.logged;
      }
    }

    /** A write of data at offset `start` has done its first i bytes; files holds what every file held
    before. */
    ghost predicate After(fs: Fs, files: seq<seq<byte>>, start: nat, data: seq<byte>, i: nat)
      reads this, fs
    {
      && fs.Valid() && ino < |fs.inodes| == |files| && i <= |data| && off == start + i
      && (forall j :: 0 <= j < |files| && j != ino ==> fs.File(j) == files[j])
      && (if i == 0 then fs.File(ino) == files[ino]
          else && start <= |files[ino]| && start + i <= MAXFILE * BSIZE
               && fs.File(ino) == Splice(files[ino], start, data[..i]))
    }

    /** The loop of filewrite: chunks of at most MAXCHUNK bytes, each in a transaction of its own, up
    to the first one that does not fit. */
    method WriteChunks(fs: Fs, data: seq<byte>, ghost files: seq<seq<byte>>, ghost start: nat)
      returns (i: nat, panic: bool)
      requires start < WORD_LIMIT && After(fs, files, start, data, 0)
      modifies this`off, fs
      ensures !panic ==> After(fs, files, start, data, i) && WholeChunks(i, |data|)
      ensures !panic ==> (i == |data| <==> data == [] || FitsIn(files, start, |data|))
    {
      i := 0;
      panic := false;
      while i < |data|
        invariant !panic && Underway(fs, files, start, data, i)
      {
        var out;
        out, i := OneChunk(fs, data, i, files, start);
        if out.Panic? {
          panic := true;
          return;
        }
        if out.Refused? {
          return;
        }
      }
    }

    /** The loop has done i bytes, and they were within bounds. */
    ghost predicate Underway(fs: Fs, files: seq<seq<byte>>, start: nat, data: seq<byte>, i: nat)
      reads this, fs
    {
      After(fs, files, start, data, i) && WholeChunks(i, |data|) && (i > 0 ==> FitsIn(files, start, i))
    }

    method OneChunk(fs: Fs, data: seq<byte>, i: nat, ghost files: seq<seq<byte>>, ghost start: nat)
        returns (out: Outcome, j: nat)
      requires start < WORD_LIMIT && Underway(fs, files, start, data, i) && i < |data|
      modifies this`off, fs
      ensures out.Done? ==> Underway(fs, files, start, data, j) && i < j
      ensures out.Refused? ==> Underway(fs, files, start, data, i) && j == i && !FitsIn(files, start, |data|)
    {
      var n1 := if |data| - i > MAXCHUNK then MAXCHUNK else |data| - i;
      NextWhole(i, |data|);
      out := NextChunk(fs, data, i, n1, files, start);
      j := if out.Done? then i + n1 else i;
    }

    /** A write of n bytes at offset `start` stays within bounds. */
    ghost predicate FitsIn(files: seq<seq<byte>>, start: nat, n: nat) {
      ino < |files| && start <= |files[ino]| && start + n <= MAXFILE * BSIZE
    }

    method NextChunk(fs: Fs, data: seq<byte>, i: nat, n1: nat, ghost files: seq<seq<byte>>, ghost start: nat)
        returns (out: Outcome)
      requires start < WORD_LIMIT && After(fs, files, start, data, i) && 0 < n1 <= MAXCHUNK && i + n1 <= |data|
      modifies this`off, fs
      ensures out.Refused? <==> !FitsIn(files, start, i + n1)
      ensures out.Refused? ==> After(fs, files, start, data, i)
      ensures out.Done? ==> After(fs, files, start, data, i + n1)
    {
      out := WriteChunk(fs, data[i..i + n1]);
      if out.Done? {
        assert data[..i] + data[i..i + n1] == data[..i + n1];
        SpliceTwice(files[ino], start, data[..i], data[i..i + n1]);
        assert Splice(files[ino], start, data[..0]) == files[ino];
      }
    }

    /** filewrite: the first n bytes of data go to the current offset.  The result is n if all of them
    fit and -1 otherwise, with a number of whole chunks written; panic stands for the panic of
    balloc. */
    method Write(fs: Fs, data: seq<byte>, n: int, ghost files: seq<seq<byte>>) returns (r: int, panic: bool)
      requires off < WORD_LIMIT && n <= |data| && After(fs, files, off, data, 0)
      modifies this`off, fs
      ensures !panic ==>
                var fits := n == 0 || (old(off) <= |files[ino]| && old(off) + n <= MAXFILE * BSIZE);
                r == if writable && n >= 0 && fits then n else -1
      ensures !panic ==> off >= old(off) && After(fs, files, old(off), data, off - old(off))
      ensures !panic && r >= 0 ==> off == old(off) + n
      ensures !panic && r < 0 ==> (off - old(off)) % MAXCHUNK == 0
    {
      if !writable || n < 0 {
        return -1, false;
      }
      ghost var start := off;
      var i;
      i, panic := WriteChunks(fs, data[..n], files, start);
      if !panic {
        assert data[..n][..i] == data[..i];
      }
      r := if i == n then n else -1;
    }
  }
}
