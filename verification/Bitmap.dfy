/** The free-block bitmap: one bit per disk block, packed into the bytes of the bitmap blocks. */
module Bitmap {
  import opened Blocks
  import opened Powers

  const BPB := BSIZE * 8

  /** Bit k of x: (x >> k) & 1. */
  predicate Bit(x: nat, k: nat) {
    if k == 0 then x % 2 == 1 else Bit(x / 2, k - 1)
  }

  /** x with bit k changed: x | (1 << k) or x & ~(1 << k). */
  function Flip(x: nat, k: nat): nat {
    if k == 0 then (if x % 2 == 1 then x - 1 else x + 1) else 2 * Flip(x / 2, k - 1) + x % 2
  }

  lemma {:induction false} FlipChangesOneBit(x: nat, k: nat, j: nat)
    ensures Bit(Flip(x, k), j) == if j == k then !Bit(x, j) else Bit(x, j)
  {
    if k > 0 && j > 0 {
      FlipChangesOneBit(x / 2, k - 1, j - 1);
    }
  }

  lemma {:induction false} FlipStaysBelow(x: nat, k: nat, n: nat)
    requires k < n && x < Pow2(n)
    ensures Flip(x, k) < Pow2(n)
  {
    assert Pow2(n) == 2 * Pow2(n - 1);
    if k > 0 {
      assert x / 2 < Pow2(n - 1);
      FlipStaysBelow(x / 2, k - 1, n - 1);
      assert Flip(x, k) == 2 * Flip(x / 2, k - 1) + x % 2;
    }
  }

  function FlipByte(x: byte, k: nat): (y: byte)
    requires k < 8
  {
    assert Pow2(4) == 16;
    assert Pow2(8) == 256;
    FlipStaysBelow(x, k, 8);
    Flip(x, k)
  }

  predicate BlockBit(v: Block, bi: nat)
    requires bi < BPB
  {
    Bit(v[bi / 8], bi % 8)
  }

  function FlipBlock(v: Block, bi: nat): Block
    requires bi < BPB
  {
    v[bi / 8 := FlipByte(v[bi / 8], bi % 8)]
  }

  lemma FlipBlockChangesOneBit(v: Block, bi: nat, bj: nat)
    requires bi < BPB && bj < BPB
    ensures BlockBit(FlipBlock(v, bi), bj) == if bj == bi then !BlockBit(v, bj) else BlockBit(v, bj)
  {
    if bj / 8 == bi / 8 {
      FlipChangesOneBit(v[bi / 8], bi % 8, bj % 8);
    }
  }

  /** Where the bit of block b lives. */
  function BBlock(start: nat, b: nat): nat {
    start + b / BPB
  }

  /** The bitmap at `start` marks block b as allocated. */
  predicate Marked(blocks: Disk, start: nat, b: nat)
    requires BBlock(start, b) < |blocks|
  {
    BlockBit(blocks[BBlock(start, b)], b % BPB)
  }

  function Toggle(blocks: Disk, start: nat, b: nat): (r: Disk)
    requires BBlock(start, b) < |blocks|
    ensures |r| == |blocks|
  {
    blocks[BBlock(start, b) := FlipBlock(blocks[BBlock(start, b)], b % BPB)]
  }

  lemma ToggleChangesOneBit(blocks: Disk, start: nat, b: nat, c: nat)
    requires BBlock(start, b) < |blocks| && BBlock(start, c) < |blocks|
    ensures Marked(Toggle(blocks, start, b), start, c) ==
            if c == b then !Marked(blocks, start, c) else Marked(blocks, start, c)
  {
    if b / BPB == c / BPB {
      FlipBlockChangesOneBit(blocks[BBlock(start, b)], b % BPB, c % BPB);
    }
  }

  /** The bit balloc tests in its inner loop is the one of block b + bi. */
  lemma BitOfBlock(blocks: Disk, start: nat, b: nat, bi: nat)
    requires b % BPB == 0 && bi < BPB && BBlock(start, b) < |blocks|
    ensures BBlock(start, b + bi) == BBlock(start, b)
    ensures Marked(blocks, start, b + bi) == BlockBit(blocks[BBlock(start, b)], bi)
  {
    assert (b + bi) / BPB == b / BPB && (b + bi) % BPB == bi;
  }
}
