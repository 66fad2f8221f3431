/** Disk blocks and the disk itself.

A block is BSIZE bytes.  Several kernel structures are C arrays of `uint` laid over such
a block (the log header, the indirect block of an inode), so this module also gives the
little-endian 32-bit view of a block.  A disk is a fixed number of blocks, and a
single-block write is the unit of atomicity. */
module Blocks {

  const BSIZE := 512
  const WORDS := 128          // BSIZE / sizeof(uint)
  const WORD_LIMIT := 0x1_0000_0000
  const MAXOPBLOCKS := 10     // how many blocks a file-system operation may log

  type byte = x: int | 0 <= x < 256
  type Block = b: seq<byte> | |b| == BSIZE witness seq(BSIZE, _ => 0)
  type Disk = seq<Block>

  function ZeroBlock(): Block {
    seq(BSIZE, _ => 0)
  }

  /** The i-th uint of a block. */
  function Word(b: Block, i: nat): (w: nat)
    requires i < WORDS
    ensures w < WORD_LIMIT
  {
    var b0: int, b1: int, b2: int, b3: int := b[4 * i], b[4 * i + 1], b[4 * i + 2], b[4 * i + 3];
    b0 + 0x100 * b1 + 0x1_0000 * b2 + 0x100_0000 * b3
  }

  /** The block after storing v in its i-th uint. */
  function SetWord(b: Block, i: nat, v: nat): Block
    requires i < WORDS && v < WORD_LIMIT
  {
    b[4 * i := v % 0x100]
     [4 * i + 1 := v / 0x100 % 0x100]
     [4 * i + 2 := v / 0x1_0000 % 0x100]
     [4 * i + 3 := v / 0x100_0000]
  }

  /** Stored words read back, and a store touches no other word. */
  lemma WordOfSetWord(b: Block, i: nat, v: nat, j: nat)
    requires i < WORDS && j < WORDS && v < WORD_LIMIT
    ensures Word(SetWord(b, i, v), j) == if i == j then v else Word(b, j)
  {
    if i == j {
      assert v / 0x1_0000 == v / 0x100 / 0x100;
      assert v / 0x100_0000 == v / 0x100 / 0x100 / 0x100;
    }
  }

  lemma WordOfZero(i: nat)
    requires i < WORDS
    ensures Word(ZeroBlock(), i) == 0
  {}

  /** One completed disk write. */
  datatype Write = Write(b: nat, v: Block)

  ghost predicate InRange(d: Disk, ws: seq<Write>) {
    forall i :: 0 <= i < |ws| ==> ws[i].b < |d|
  }

  /** The disk after the writes ws, in order. */
  ghost function Apply(d: Disk, ws: seq<Write>): (r: Disk)
    requires InRange(d, ws)
    ensures |r| == |d|
    decreases |ws|
  {
    if ws == [] then d
    else
      var last := ws[|ws| - 1];
      Apply(d, ws[..|ws| - 1])[last.b := last.v]
  }

  lemma TakeNext<T>(pre: seq<T>, ws: seq<T>, k: nat)
    requires k < |ws|
    ensures pre + ws[..k] + [ws[k]] == pre + ws[..k + 1]
  {}

  lemma TakeNone<T>(pre: seq<T>, ws: seq<T>)
    ensures pre + ws[..0] == pre
    ensures pre + ws[..|ws|] == pre + ws
    ensures ws[..|ws|] == ws
  {}

  /** One more write of a longer series. */
  lemma ApplyNext(d: Disk, ws: seq<Write>, k: nat)
    requires InRange(d, ws) && k < |ws|
    ensures InRange(d, ws[..k]) && InRange(d, ws[..k + 1])
    ensures Apply(d, ws[..k + 1]) == Apply(d, ws[..k])[ws[k].b := ws[k].v]
  {
    assert ws[..k + 1][..k] == ws[..k];
  }

  lemma {:induction false} ApplyConcat(d: Disk, us: seq<Write>, vs: seq<Write>)
    requires InRange(d, us) && InRange(d, vs)
    ensures InRange(d, us + vs)
    ensures Apply(d, us + vs) == Apply(Apply(d, us), vs)
    decreases |vs|
  {
    var ws := us + vs;
    assert forall i :: 0 <= i < |ws| ==> ws[i] == if i < |us| then us[i] else vs[i - |us|];
    if vs == [] {
      assert ws == us;
    } else {
      var k := |vs| - 1;
      ApplyConcat(d, us, vs[..k]);
      assert ws[..|ws| - 1] == us + vs[..k];
    }
  }

  lemma ApplyAppend(d: Disk, ws: seq<Write>, w: Write)
    requires InRange(d, ws) && w.b < |d|
    ensures InRange(d, ws + [w]) && Apply(d, ws + [w]) == Apply(d, ws)[w.b := w.v]
  {
    assert (ws + [w])[..|ws|] == ws;
  }

  /** A block no write names keeps its contents. */
  lemma {:induction false} ApplyUntouched(d: Disk, ws: seq<Write>, b: nat)
    requires InRange(d, ws) && b < |d|
    requires forall i :: 0 <= i < |ws| ==> ws[i].b != b
    ensures Apply(d, ws)[b] == d[b]
    decreases |ws|
  {
    if ws != [] {
      ApplyUntouched(d, ws[..|ws| - 1], b);
    }
  }

  /** If exactly write k of ws names block b, b ends up with what k wrote. */
  lemma {:induction false} ApplyTouched(d: Disk, ws: seq<Write>, k: nat)
    requires InRange(d, ws) && k < |ws|
    requires forall i :: k < i < |ws| ==> ws[i].b != ws[k].b
    ensures Apply(d, ws)[ws[k].b] == ws[k].v
    decreases |ws|
  {
    if k < |ws| - 1 {
      ApplyTouched(d, ws[..|ws| - 1], k);
    }
  }
}
