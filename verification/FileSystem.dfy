/** fs.c: the bitmap allocator, the block map of an inode, and reading, writing and truncating
files, over the block contents that the log and the buffer cache provide.  `logged` collects
the blocks the current transaction passes to log_write. */
module FileSystem {
  import opened Blocks
  import opened Bitmap
  import opened FileModel

  const IPB := 8                              // inodes per block

  datatype Super = Super(inodestart: nat, bmapstart: nat, datastart: nat)
  datatype Inode = Inode(size: nat, addrs: seq<nat>)
  datatype Outcome = Done(count: nat) | Refused | Panic

  function IBlock(sb: Super, i: nat): nat {
    sb.inodestart + i / IPB
  }

  /** Inode blocks, then bitmap blocks, then data blocks. */
  ghost predicate Layout(sb: Super, ninodes: nat, nblocks: nat) {
    && (ninodes > 0 ==> IBlock(sb, ninodes - 1) < sb.bmapstart)
    && 0 < sb.bmapstart && sb.bmapstart + nblocks / BPB < sb.datastart <= nblocks <= WORD_LIMIT
  }

  // ---- the bitmap ----

  /** The bitmap marks exactly the blocks of `used`. */
  ghost predicate BitsOk(sb: Super, blocks: Disk, used: set<nat>) {
    && sb.bmapstart + |blocks| / BPB < sb.datastart <= |blocks|
    && (forall b {:trigger b in used} :: b in used ==> 0 <= b < |blocks|)
    && forall b {:trigger Marked(blocks, sb.bmapstart, b)} :: 0 <= b < |blocks| ==>
         (b in used <==> Marked(blocks, sb.bmapstart, b))
  }

  lemma UsedBit(sb: Super, blocks: Disk, used: set<nat>, b: nat, bi: nat)
    requires BitsOk(sb, blocks, used) && b % BPB == 0 && bi < BPB && b + bi < |blocks|
    ensures BBlock(sb.bmapstart, b) < |blocks|
    ensures b + bi in used <==> BlockBit(blocks[BBlock(sb.bmapstart, b)], bi)
  {
    BitOfBlock(blocks, sb.bmapstart, b, bi);
  }

  lemma ToggleBits(sb: Super, blocks: Disk, used: set<nat>, b: nat)
    requires BitsOk(sb, blocks, used) && b < |blocks|
    ensures BitsOk(sb, Toggle(blocks, sb.bmapstart, b), if b in used then used - {b} else used + {b})
    ensures forall c :: sb.datastart <= c < |blocks| ==> Toggle(blocks, sb.bmapstart, b)[c] == blocks[c]
  {
    var used' := if b in used then used - {b} else used + {b};
    forall c | 0 <= c < |blocks|
      ensures c in used' <==> Marked(Toggle(blocks, sb.bmapstart, b), sb.bmapstart, c)
    {
      assert c in used <==> Marked(blocks, sb.bmapstart, c);
      ToggleChangesOneBit(blocks, sb.bmapstart, b, c);
    }
  }

  /** Data blocks do not matter to the bitmap. */
  lemma StoreBits(sb: Super, blocks: Disk, used: set<nat>, b: nat, v: Block)
    requires BitsOk(sb, blocks, used) && sb.datastart <= b < |blocks|
    ensures BitsOk(sb, blocks[b := v], used)
  {
    forall c | 0 <= c < |blocks|
      ensures c in used <==> Marked(blocks[b := v], sb.bmapstart, c)
    {
      assert c in used <==> Marked(blocks, sb.bmapstart, c);
    }
  }

  // ---- the block map ----

  /** The block number that slot x of the inode table holds, 0 if it holds none. */
  ghost function AddrOf(inodes: seq<Inode>, blocks: Disk, x: Slot): nat {
    if x.ino < |inodes| && |inodes[x.ino].addrs| == NDIRECT + 1 then
      var addrs := inodes[x.ino].addrs;
      if x.pos <= NDIRECT then addrs[x.pos]
      else if x.pos <= MAXFILE && 0 < addrs[NDIRECT] < |blocks| then Word(blocks[addrs[NDIRECT]], x.pos - NDIRECT - 1)
      else 0
    else 0
  }

  /** refs is the block map that the inodes and their indirect blocks encode. */
  ghost predicate Decodes(inodes: seq<Inode>, blocks: Disk, refs: map<Slot, nat>) {
    && (forall i {:trigger inodes[i]} :: 0 <= i < |inodes| ==> |inodes[i].addrs| == NDIRECT + 1)
    && forall x {:trigger AddrOf(inodes, blocks, x)} {:trigger x in refs} ::
         && (x in refs <==> AddrOf(inodes, blocks, x) != 0)
         && (x in refs ==> refs[x] == AddrOf(inodes, blocks, x))
  }

  ghost function Sizes(inodes: seq<Inode>): (s: seq<nat>)
    ensures |s| == |inodes| && forall i :: 0 <= i < |s| ==> s[i] == inodes[i].size
  {
    seq(|inodes|, i requires 0 <= i < |inodes| => inodes[i].size)
  }

  /** Changing blocks that hold no indirect block changes no block map. */
  lemma DecodesFrame(inodes: seq<Inode>, blocks: Disk, blocks': Disk, refs: map<Slot, nat>)
    requires Decodes(inodes, blocks, refs) && |blocks'| == |blocks|
    requires forall i {:trigger IndirectSlot(i)} ::
               0 <= i && IndirectSlot(i) in refs && refs[IndirectSlot(i)] < |blocks| ==>
               blocks'[refs[IndirectSlot(i)]] == blocks[refs[IndirectSlot(i)]]
    ensures Decodes(inodes, blocks', refs)
  {
    forall x
      ensures AddrOf(inodes, blocks', x) == AddrOf(inodes, blocks, x)
    {
      if x.ino < |inodes| {
        assert AddrOf(inodes, blocks, IndirectSlot(x.ino)) == inodes[x.ino].addrs[NDIRECT];
      }
    }
  }

  /** Storing b in a direct slot or as indirect block. */
  lemma DecodesLinkDirect(inodes: seq<Inode>, blocks: Disk, refs: map<Slot, nat>, i: nat, s: nat, b: nat)
    requires Decodes(inodes, blocks, refs) && i < |inodes| && s <= NDIRECT && Slot(i, s) !in refs && b != 0
    requires s == NDIRECT ==> b < |blocks| && blocks[b] == ZeroBlock()
    ensures Decodes(inodes[i := inodes[i].(addrs := inodes[i].addrs[s := b])], blocks, refs[Slot(i, s) := b])
  {
    var inodes' := inodes[i := inodes[i].(addrs := inodes[i].addrs[s := b])];
    assert AddrOf(inodes, blocks, Slot(i, s)) == 0;
    forall x
      ensures AddrOf(inodes', blocks, x) == if x == Slot(i, s) then b else AddrOf(inodes, blocks, x)
    {
      if x.ino == i && NDIRECT < x.pos <= MAXFILE && s == NDIRECT {
        WordOfZero(x.pos - NDIRECT - 1);
      }
    }
  }

  /** Storing b in entry t of the indirect block. */
  lemma DecodesLinkEntry(inodes: seq<Inode>, blocks: Disk, refs: map<Slot, nat>, i: nat, t: nat, b: nat)
    requires Decodes(inodes, blocks, refs) && i < |inodes| && t < NINDIRECT && 0 < b < WORD_LIMIT
    requires IndirectSlot(i) in refs && refs[IndirectSlot(i)] < |blocks|
    requires forall x, y {:trigger refs[x], refs[y]} :: x in refs && y in refs && refs[x] == refs[y] ==> x == y
    ensures var ind := refs[IndirectSlot(i)];
            Decodes(inodes, blocks[ind := SetWord(blocks[ind], t, b)], refs[Slot(i, NDIRECT + 1 + t) := b])
  {
    var ind := refs[IndirectSlot(i)];
    var blocks' := blocks[ind := SetWord(blocks[ind], t, b)];
    assert AddrOf(inodes, blocks, IndirectSlot(i)) == ind;
    forall x
      ensures AddrOf(inodes, blocks', x) == if x == Slot(i, NDIRECT + 1 + t) then b else AddrOf(inodes, blocks, x)
    {
      if x.ino < |inodes| && NDIRECT < x.pos <= MAXFILE {
        assert AddrOf(inodes, blocks, IndirectSlot(x.ino)) == inodes[x.ino].addrs[NDIRECT];
        if inodes[x.ino].addrs[NDIRECT] == ind {
          assert IndirectSlot(x.ino) in refs && refs[IndirectSlot(x.ino)] == ind;
          WordOfSetWord(blocks[ind], t, b, x.pos - NDIRECT - 1);
        }
      }
    }
  }

  /** 1 if the indirect block of inode i has been allocated between the two maps. */
  ghost function NewIndirect(before: map<Slot, nat>, after: map<Slot, nat>, i: nat): nat {
    if IndirectSlot(i) in after && IndirectSlot(i) !in before then 1 else 0
  }

  lemma DecodedPositions(inodes: seq<Inode>, blocks: Disk, refs: map<Slot, nat>)
    requires Decodes(inodes, blocks, refs)
    ensures forall x {:trigger x in refs} :: x in refs ==> x.pos <= MAXFILE && x.ino < |inodes|
  {}

  lemma IndirectEntries(inodes: seq<Inode>, blocks: Disk, refs: map<Slot, nat>, i: nat)
    requires Decodes(inodes, blocks, refs) && i < |inodes| && 0 < inodes[i].addrs[NDIRECT] < |blocks|
    ensures IndirectSlot(i) in refs && refs[IndirectSlot(i)] == inodes[i].addrs[NDIRECT]
    ensures var v := blocks[inodes[i].addrs[NDIRECT]];
            forall t {:trigger Word(v, t)} :: 0 <= t < NINDIRECT ==>
              var x := Slot(i, NDIRECT + 1 + t); Word(v, t) == if x in refs then refs[x] else 0
  {
    assert AddrOf(inodes, blocks, IndirectSlot(i)) == inodes[i].addrs[NDIRECT];
    var v := blocks[inodes[i].addrs[NDIRECT]];
    forall t | 0 <= t < NINDIRECT
      ensures var x := Slot(i, NDIRECT + 1 + t); Word(v, t) == if x in refs then refs[x] else 0
    {
      assert AddrOf(inodes, blocks, Slot(i, NDIRECT + 1 + t)) == Word(v, t);
    }
  }

  lemma NoSuchBlock(inodes: seq<Inode>, blocks: Disk, refs: map<Slot, nat>, i: nat, bn: nat)
    requires Decodes(inodes, blocks, refs) && bn >= MAXFILE
    ensures DataSlot(i, bn) !in refs
  {
    DecodedPositions(inodes, blocks, refs);
  }

  lemma NoIndirectEntries(inodes: seq<Inode>, blocks: Disk, refs: map<Slot, nat>, i: nat)
    requires Decodes(inodes, blocks, refs) && i < |inodes| && inodes[i].addrs[NDIRECT] == 0
    ensures forall x {:trigger x in refs} :: x in refs && x.ino == i ==> x.pos < NDIRECT
  {}

  /** Emptying inode i removes its slots from the block map and no others. */
  lemma TruncateDecodes(inodes: seq<Inode>, blocks: Disk, inodes': seq<Inode>, blocks': Disk, refs: map<Slot, nat>,
                        i: nat, datastart: nat)
    requires Decodes(inodes, blocks, refs) && i < |inodes| == |inodes'| && |blocks| == |blocks'|
    requires forall x {:trigger refs[x]} :: x in refs ==> datastart <= refs[x] < |blocks|
    requires forall c :: datastart <= c < |blocks| ==> blocks'[c] == blocks[c]
    requires forall j :: 0 <= j < |inodes| && j != i ==> inodes'[j] == inodes[j]
    requires |inodes'[i].addrs| == NDIRECT + 1 && forall s :: 0 <= s <= NDIRECT ==> inodes'[i].addrs[s] == 0
    ensures Decodes(inodes', blocks', map x | x in refs && x.ino != i :: refs[x])
  {
    forall x
      ensures AddrOf(inodes', blocks', x) == if x.ino == i then 0 else AddrOf(inodes, blocks, x)
    {
      if x.ino < |inodes| && x.ino != i {
        assert AddrOf(inodes, blocks, IndirectSlot(x.ino)) == inodes[x.ino].addrs[NDIRECT];
        if inodes[x.ino].addrs[NDIRECT] != 0 {
          assert IndirectSlot(x.ino) in refs && refs[IndirectSlot(x.ino)] == inodes[x.ino].addrs[NDIRECT];
        }
      }
    }
  }

  // ---- what a write adds to the log ----

  /** Nothing is dropped from the log, and every block that changes is in it. */
  ghost predicate Covered(blocks: Disk, logged: set<nat>, blocks': Disk, logged': set<nat>) {
    && |blocks'| == |blocks|
    && (forall b {:trigger b in logged'} {:trigger b in logged} :: b in logged ==> b in logged')
    && forall c {:trigger blocks'[c]} {:trigger blocks[c]} :: 0 <= c < |blocks| && c !in logged' ==>
           blocks'[c] == blocks[c]
  }

  lemma CoveredTrans(blocks: Disk, logged: set<nat>, blocks1: Disk, logged1: set<nat>, blocks2: Disk, logged2: set<nat>)
    requires Covered(blocks, logged, blocks1, logged1) && Covered(blocks1, logged1, blocks2, logged2)
    ensures Covered(blocks, logged, blocks2, logged2)
  {}

  /** The data blocks and bitmap blocks a write has logged. */
  datatype Charge = Charge(data: seq<nat>, bits: seq<nat>)

  /** b is the indirect block of inode i. */
  ghost predicate IsIndirect(refs: map<Slot, nat>, i: nat, b: nat) {
    IndirectSlot(i) in refs && refs[IndirectSlot(i)] == b
  }

  /** Whatever has been logged since logged0 is listed in the charge, or the indirect block of
  inode i. */
  ghost predicate Charged(logged0: set<nat>, logged: set<nat>, charge: Charge, refs: map<Slot, nat>, i: nat) {
    forall b {:trigger b in logged} :: b in logged ==>
      b in logged0 || b in charge.data || b in charge.bits || IsIndirect(refs, i, b)
  }

  lemma ChargeMore(logged0: set<nat>, logged: set<nat>, logged': set<nat>, charge: Charge, bits: seq<nat>,
                   addr: nat, refs: map<Slot, nat>, refs': map<Slot, nat>, i: nat)
    requires Charged(logged0, logged, charge, refs, i) && KeepsLinks(refs, refs')
    requires Charged(logged, logged', Charge([addr], bits), refs', i)
    ensures Charged(logged0, logged', Charge(charge.data + [addr], charge.bits + bits), refs', i)
  {}

  /** Allocating the indirect block ind of inode i, and then a block behind it. */
  lemma ChargePair(logged0: set<nat>, logged: set<nat>, logged': set<nat>, bits: seq<nat>, bits': seq<nat>,
                   ind: nat, addr: nat, refs: map<Slot, nat>, i: nat)
    requires IndirectSlot(i) in refs && refs[IndirectSlot(i)] == ind
    requires logged == logged0 || Charged(logged0, logged, Charge([ind], bits), map[], i)
    requires logged' == logged || Charged(logged, logged', Charge([addr], bits'), refs, i)
    ensures Charged(logged0, logged', Charge([addr], bits + bits'), refs, i)
  {}

  /** How many blocks the bytes off .. off+n-1 of a file lie in. */
  function Touched(off: nat, n: nat): nat {
    if n == 0 then 0 else (off + n - 1) / BSIZE - off / BSIZE + 1
  }

  /** How many of them a write at an offset within the file can have to allocate: not the first
  one, unless the write starts on a block boundary. */
  function Fresh(off: nat, n: nat): nat {
    if n > 0 && off % BSIZE != 0 then Touched(off, n) - 1 else Touched(off, n)
  }

  /** Each further chunk is one more block; only the first one of an unaligned write is known to
  exist. */
  lemma MoreBlocks(off: nat, done: nat, m: nat)
    requires 0 < m && (off + done) % BSIZE + m <= BSIZE && (done > 0 ==> (off + done) % BSIZE == 0)
    ensures Touched(off, done + m) == Touched(off, done) + 1
    ensures Fresh(off, done + m) == Fresh(off, done) + if done == 0 && off % BSIZE != 0 then 0 else 1
  {
    assert (off + done + m - 1) / BSIZE == (off + done) / BSIZE;
    if done > 0 {
      assert (off + done - 1) / BSIZE == (off + done) / BSIZE - 1;
    }
  }

  lemma FirstBlockLinked(f: Files, i: nat, off: nat)
    requires Dense(f) && i < |f.sizes| && off <= f.sizes[i]
    ensures off % BSIZE != 0 ==> DataSlot(i, off / BSIZE) in f.refs
  {
    assert off % BSIZE != 0 ==> off / BSIZE * BSIZE < f.sizes[i];
  }

  /** min(n - tot, BSIZE - off % BSIZE): up to the end of the block, or of the request. */
  function ChunkLen(pos: nat, left: nat): (m: nat)
    requires left > 0
    ensures 0 < m <= left && pos % BSIZE + m <= BSIZE
    ensures m < left ==> (pos + m) % BSIZE == 0
  {
    if left < BSIZE - pos % BSIZE then left else BSIZE - pos % BSIZE
  }

  /** Where the loop of writei stands: the files, the log, and the bytes written so far. */
  datatype Progress = Progress(files: Files, logged: set<nat>, tot: nat)

  /** What one pass of the loop does: the files once bmap has run, the bitmap blocks it logged, the
  block written to, and the log after the pass. */
  datatype Pass = Pass(mapped: Files, bits: seq<nat>, addr: nat, logged: set<nat>)

  /** Pass p, taken with the files and the log of q, writes `chunk` at offset pos of inode i. */
  ghost predicate PassOk(p: Pass, q: Progress, datastart: nat, i: nat, pos: nat, chunk: seq<byte>) {
    && pos % BSIZE + |chunk| <= BSIZE && 0 < |chunk|
    && Grows(q.files, p.mapped) && Owned(p.mapped, datastart)
    && DataSlot(i, pos / BSIZE) in p.mapped.refs && p.addr == p.mapped.refs[DataSlot(i, pos / BSIZE)]
    && Charged(q.logged, p.logged, Charge([p.addr], p.bits), p.mapped.refs, i)
    && |p.bits| <= (if DataSlot(i, pos / BSIZE) in q.files.refs then 0 else 1)
                   + NewIndirect(q.files.refs, p.mapped.refs, i)
    && (DataSlot(i, pos / BSIZE) in q.files.refs ==> p.mapped.refs == q.files.refs)
    && Covered(q.files.blocks, q.logged, p.mapped.blocks, p.logged) && p.addr in p.logged
    && (NoneLost(q.files, datastart) ==> NoneLost(p.mapped, datastart)) && Allocates(q.files, p.mapped, i)
    && |p.mapped.used| <= |q.files.used| + |p.bits|
  }

  /** The files after pass p. */
  ghost function Overwritten(p: Pass, pos: nat, chunk: seq<byte>): Files
    requires p.addr < |p.mapped.blocks| && pos % BSIZE + |chunk| <= BSIZE
  {
    Store(p.mapped, p.addr, Patch(p.mapped.blocks[p.addr], pos % BSIZE, chunk))
  }

  /** The next chunk of src once tot bytes are written. */
  function NextChunk(src: seq<byte>, off: nat, tot: nat): (chunk: seq<byte>)
    requires tot < |src|
    ensures 0 < |chunk| && tot + |chunk| <= |src|
  {
    src[tot..tot + ChunkLen(off + tot, |src| - tot)]
  }

  /** Property P of the progress of a write survives every pass. */
  ghost predicate KeptByPasses(P: Progress -> bool, datastart: nat, i: nat, src: seq<byte>, off: nat) {
    forall p, q, pos, chunk {:trigger PassOk(p, q, datastart, i, pos, chunk)} ::
      PassOk(p, q, datastart, i, pos, chunk) && IsNext(q, src, off, pos, chunk) && P(q) ==>
          P(AfterPass(p, q, pos, chunk))
  }

  ghost predicate IsNext(q: Progress, src: seq<byte>, off: nat, pos: nat, chunk: seq<byte>) {
    q.tot < |src| && pos == off + q.tot && chunk == NextChunk(src, off, q.tot)
  }

  lemma MakePass(q: Progress, p: Pass, logged: set<nat>, datastart: nat, i: nat, pos: nat, chunk: seq<byte>)
    requires pos % BSIZE + |chunk| <= BSIZE && 0 < |chunk|
    requires Grows(q.files, p.mapped) == true && Owned(p.mapped, datastart) == true && p.logged == logged + {p.addr}
    requires DataSlot(i, pos / BSIZE) in p.mapped.refs && p.addr == p.mapped.refs[DataSlot(i, pos / BSIZE)]
    requires Charged(q.logged, logged, Charge([p.addr], p.bits), p.mapped.refs, i) == true
    requires |p.bits| <= (if DataSlot(i, pos / BSIZE) in q.files.refs then 0 else 1)
                         + NewIndirect(q.files.refs, p.mapped.refs, i)
    requires DataSlot(i, pos / BSIZE) in q.files.refs ==> p.mapped.refs == q.files.refs
    requires Covered(q.files.blocks, q.logged, p.mapped.blocks, logged) == true
    requires NoneLost(q.files, datastart) ==> NoneLost(p.mapped, datastart) == true
    requires Allocates(q.files, p.mapped, i) == true && |p.mapped.used| <= |q.files.used| + |p.bits|
    ensures PassOk(p, q, datastart, i, pos, chunk) == true
  {}

  lemma UsePass(P: Progress -> bool, datastart: nat, i: nat, src: seq<byte>, off: nat, p: Pass, q: Progress,
                pos: nat, chunk: seq<byte>, after: Progress)
    requires KeptByPasses(P, datastart, i, src, off) && P(q)
    requires PassOk(p, q, datastart, i, pos, chunk) == true && IsNext(q, src, off, pos, chunk)
    requires after.files == Overwritten(p, pos, chunk) && after.logged == p.logged && after.tot == q.tot + |chunk|
    ensures P(after)
  {
    assert after == AfterPass(p, q, pos, chunk);
  }

  ghost function AfterPass(p: Pass, q: Progress, pos: nat, chunk: seq<byte>): Progress
    requires p.addr < |p.mapped.blocks| && pos % BSIZE + |chunk| <= BSIZE
  {
    Progress(Overwritten(p, pos, chunk), p.logged, q.tot + |chunk|)
  }

  /** A write of w to inode i at offset off that started from `start` with log `logged0`, and has
  done its first `done` bytes. */
  ghost predicate InWrite(start: Files, cur: Files, i: nat, off: nat, w: seq<byte>, done: nat,
                          logged0: set<nat>, logged: set<nat>, charge: Charge)
  {
    && Written(start, cur, i, off, w, done) && KeepsLinks(start.refs, cur.refs)
    && Charged(logged0, logged, charge, cur.refs, i) && |charge.data| == Touched(off, done)
    && |charge.bits| <= Fresh(off, done) + NewIndirect(start.refs, cur.refs, i)
    && |cur.used| <= |start.used| + |charge.bits|
  }

  ghost predicate KeepsLinks(r: map<Slot, nat>, s: map<Slot, nat>) {
    forall x {:trigger x in s} :: x in r ==> x in s && s[x] == r[x]
  }

  lemma KeepsLinksTrans(r: map<Slot, nat>, s: map<Slot, nat>, t: map<Slot, nat>)
    requires KeepsLinks(r, s) && KeepsLinks(s, t)
    ensures KeepsLinks(r, t)
  {
    forall x | x in r
      ensures x in t && t[x] == r[x]
    {
      assert x in s;
    }
  }

  /** The bookkeeping of one pass: one more data block, and a bitmap block only for a block that
  did not exist. */
  lemma StepCharge(start: Files, before: Files, after: Files, i: nat, off: nat, done: nat, m: nat,
                   charge: Charge, bits: seq<nat>, addr: nat)
    requires Dense(start) && i < |start.sizes| && off <= start.sizes[i]
    requires KeepsLinks(start.refs, before.refs) && KeepsLinks(before.refs, after.refs)
    requires 0 < m && (off + done) % BSIZE + m <= BSIZE && (done > 0 ==> (off + done) % BSIZE == 0)
    requires |charge.data| == Touched(off, done)
    requires |charge.bits| <= Fresh(off, done) + NewIndirect(start.refs, before.refs, i)
    requires |bits| <= (if DataSlot(i, (off + done) / BSIZE) in before.refs then 0 else 1)
                       + NewIndirect(before.refs, after.refs, i)
    ensures |charge.data + [addr]| == Touched(off, done + m)
    ensures |charge.bits + bits| <= Fresh(off, done + m) + NewIndirect(start.refs, after.refs, i)
  {
    MoreBlocks(off, done, m);
    FirstBlockLinked(start, i, off);
  }

  lemma StepWrite(start: Files, datastart: nat, i: nat, off: nat, w: seq<byte>, logged0: set<nat>, charge: Charge,
                  p: Pass, q: Progress, m: nat)
    requires Dense(start) && i < |start.sizes| && off <= start.sizes[i] && q.tot + m <= |w|
    requires InWrite(start, q.files, i, off, w, q.tot, logged0, q.logged, charge)
    requires q.tot > 0 ==> (off + q.tot) % BSIZE == 0
    requires PassOk(p, q, datastart, i, off + q.tot, w[q.tot..q.tot + m])
    ensures InWrite(start, Overwritten(p, off + q.tot, w[q.tot..q.tot + m]), i, off, w, q.tot + m, logged0, p.logged,
                    Charge(charge.data + [p.addr], charge.bits + p.bits))
  {
    var after := Overwritten(p, off + q.tot, w[q.tot..q.tot + m]);
    KeepWriting(start, q.files, p.mapped, i, off, w, q.tot);
    WriteMore(start, p.mapped, datastart, i, off, w, q.tot, m);
    assert KeepsLinks(q.files.refs, after.refs);
    KeepsLinksTrans(start.refs, q.files.refs, after.refs);
    StepCharge(start, q.files, after, i, off, q.tot, m, charge, p.bits, p.addr);
    ChargeMore(logged0, q.logged, p.logged, charge, p.bits, p.addr, q.files.refs, after.refs, i);
  }

  lemma StartWrite(start: Files, datastart: nat, i: nat, off: nat, w: seq<byte>, logged: set<nat>)
    requires Owned(start, datastart)
    ensures InWrite(start, start, i, off, w, 0, logged, logged, Charge([], []))
  {}

  ghost predicate HasCharge(start: Files, logged0: set<nat>, i: nat, off: nat, src: seq<byte>, q: Progress)
    requires q.tot <= |src|
  {
    exists charge :: InWrite(start, q.files, i, off, src, q.tot, logged0, q.logged, charge)
  }

  /** What is known while src is written to inode i at offset off: which bytes and blocks the write
  has changed, what it has logged, that all but the last chunk end on a block boundary, and that
  it allocates nothing below the old size. */
  ghost predicate OnTrack(start: Files, datastart: nat, logged0: set<nat>, i: nat, off: nat, src: seq<byte>,
                          q: Progress)
    requires i < |start.sizes|
  {
    && q.tot <= |src| && (0 < q.tot < |src| ==> (off + q.tot) % BSIZE == 0)
    && HasCharge(start, logged0, i, off, src, q)
    && (off + q.tot <= start.sizes[i] ==> q.files.refs == start.refs)
    && Covered(start.blocks, logged0, q.files.blocks, q.logged)
    && (NoneLost(start, datastart) ==> NoneLost(q.files, datastart)) && Allocates(start, q.files, i)
  }

  ghost function Track(start: Files, datastart: nat, logged0: set<nat>, i: nat, off: nat,
                       src: seq<byte>): Progress -> bool
    requires i < |start.sizes|
  {
    q => OnTrack(start, datastart, logged0, i, off, src, q)
  }

  lemma ChargePass(start: Files, datastart: nat, logged0: set<nat>, i: nat, off: nat, src: seq<byte>,
                   p: Pass, q: Progress, pos: nat, chunk: seq<byte>)
    requires Dense(start) && i < |start.sizes| && off <= start.sizes[i]
    requires q.tot <= |src| && (0 < q.tot < |src| ==> (off + q.tot) % BSIZE == 0)
    requires HasCharge(start, logged0, i, off, src, q)
    requires PassOk(p, q, datastart, i, pos, chunk) && IsNext(q, src, off, pos, chunk)
    ensures HasCharge(start, logged0, i, off, src, AfterPass(p, q, pos, chunk)) == true
  {
    var charge :| InWrite(start, q.files, i, off, src, q.tot, logged0, q.logged, charge) == true;
    StepWrite(start, datastart, i, off, src, logged0, charge, p, q, |chunk|);
  }

  lemma TrackPass(start: Files, datastart: nat, logged0: set<nat>, i: nat, off: nat, src: seq<byte>,
                  p: Pass, q: Progress, pos: nat, chunk: seq<byte>)
    requires Inv(start, datastart) && i < |start.sizes| && off <= start.sizes[i]
    requires OnTrack(start, datastart, logged0, i, off, src, q)
    requires PassOk(p, q, datastart, i, pos, chunk) && IsNext(q, src, off, pos, chunk)
    ensures OnTrack(start, datastart, logged0, i, off, src, AfterPass(p, q, pos, chunk))
  {
    ChargePass(start, datastart, logged0, i, off, src, p, q, pos, chunk);
    AllocatesTrans(start, q.files, p.mapped, i);
    if pos + |chunk| <= start.sizes[i] {
      LinkedBelow(start, i, pos);
    }
  }

  lemma LinkedBelow(f: Files, i: nat, pos: nat)
    requires Dense(f) && i < |f.sizes| && pos < f.sizes[i]
    ensures DataSlot(i, pos / BSIZE) in f.refs
  {
    assert pos / BSIZE * BSIZE < f.sizes[i];
  }

  lemma TrackKept(start: Files, datastart: nat, logged0: set<nat>, i: nat, off: nat, src: seq<byte>)
    requires Inv(start, datastart) && i < |start.sizes| && off <= start.sizes[i]
    ensures KeptByPasses(Track(start, datastart, logged0, i, off, src), datastart, i, src, off)
    ensures Track(start, datastart, logged0, i, off, src)(Progress(start, logged0, 0))
  {
    var P := Track(start, datastart, logged0, i, off, src);
    StartWrite(start, datastart, i, off, src, logged0);
    forall p, q, pos, chunk |
      PassOk(p, q, datastart, i, pos, chunk) && IsNext(q, src, off, pos, chunk) && P(q)
      ensures P(AfterPass(p, q, pos, chunk))
    {
      TrackPass(start, datastart, logged0, i, off, src, p, q, pos, chunk);
    }
  }

  /** A set of blocks that are all listed is no larger than the list. */
  lemma {:induction false} ListedSize(s: set<nat>, list: seq<nat>)
    requires forall b :: b in s ==> b in list
    ensures |s| <= |list|
    decreases |list|
  {
    if list == [] {
      assert s == {};
    } else {
      var k := |list| - 1;
      ListedSize(s - {list[k]}, list[..k]);
    }
  }

  /** What a charge says about the number of distinct blocks logged. */
  lemma ChargeSize(logged0: set<nat>, logged: set<nat>, charge: Charge, refs: map<Slot, nat>, i: nat, inode: nat)
    requires Charged(logged0, logged, charge, refs, i)
    ensures |logged + {inode} - logged0| <= |charge.data| + |charge.bits| + 2
    ensures |logged - logged0| <= |charge.data| + |charge.bits| + 2
  {
    var ind := if IndirectSlot(i) in refs then refs[IndirectSlot(i)] else 0;
    ListedSize(logged + {inode} - logged0, charge.data + charge.bits + [ind, inode]);
    ListedSize(logged - logged0, charge.data + charge.bits + [ind, inode]);
  }

  /** No block is left for offset pos of inode i: it has none, and at most one block is free, which it takes for the
  indirect block first. */
  ghost predicate Stuck(f: Files, i: nat, pos: nat) {
    DataSlot(i, pos / BSIZE) !in f.refs && |f.blocks| <= |f.used| + if IndirectSlot(i) in f.refs then 0 else 1
  }

  ghost predicate GetsStuck(P: Progress -> bool, i: nat, src: seq<byte>, off: nat) {
    exists q {:trigger P(q)} :: P(q) && q.tot < |src| && Stuck(q.files, i, off + q.tot)
  }

  lemma {:induction false} FullSize(used: set<nat>, n: nat)
    requires forall b :: 0 <= b < n ==> b in used
    ensures |used| >= n
  {
    if n > 0 {
      FullSize(used - {n - 1}, n - 1);
    }
  }

  lemma NowStuck(P: Progress -> bool, q: Progress, used: set<nat>, i: nat, src: seq<byte>, off: nat)
    requires P(q) && q.tot < |src| && DataSlot(i, (off + q.tot) / BSIZE) !in q.files.refs
    requires forall b :: 0 <= b < |q.files.blocks| ==> b in used
    requires |used| <= |q.files.used| + if IndirectSlot(i) in q.files.refs then 0 else 1
    ensures GetsStuck(P, i, src, off) == true
  {
    FullSize(used, |q.files.blocks|);
    assert P(q) && Stuck(q.files, i, off + q.tot);
  }

  lemma FreshMore(off: nat, m: nat, n: nat)
    requires m <= n
    ensures Fresh(off, m) <= Fresh(off, n)
  {
    if 0 < m {
      assert (off + m - 1) / BSIZE <= (off + n - 1) / BSIZE;
    }
  }

  /** A write that gets stuck has used up all blocks, and needed more than there were. */
  lemma StuckShort(start: Files, datastart: nat, logged0: set<nat>, i: nat, off: nat, src: seq<byte>, q: Progress)
    requires Dense(start) && i < |start.sizes| && off <= start.sizes[i]
    requires OnTrack(start, datastart, logged0, i, off, src, q) && q.tot < |src| && Stuck(q.files, i, off + q.tot)
    ensures |start.blocks| <= |start.used| + Fresh(off, |src|)
  {
    var charge :| InWrite(start, q.files, i, off, src, q.tot, logged0, q.logged, charge);
    var m := ChunkLen(off + q.tot, |src| - q.tot);
    MoreBlocks(off, q.tot, m);
    FirstBlockLinked(start, i, off);
    FreshMore(off, q.tot + m, |src|);
  }

  lemma TrackStuck(start: Files, datastart: nat, logged0: set<nat>, i: nat, off: nat, src: seq<byte>)
    requires Dense(start) && i < |start.sizes| && off <= start.sizes[i]
    requires GetsStuck(Track(start, datastart, logged0, i, off, src), i, src, off) == true
    ensures |start.blocks| <= |start.used| + Fresh(off, |src|)
  {
    var P := Track(start, datastart, logged0, i, off, src);
    var q :| P(q) && q.tot < |src| && Stuck(q.files, i, off + q.tot);
    StuckShort(start, datastart, logged0, i, off, src, q);
  }

  /** h is start with src written to file i, and all other files as before; every block that changed is among the blocks
  logged, which are not too many; what was linked was free, and nothing is lost. */
  ghost predicate WriteDone(start: Files, h: Files, datastart: nat, logged0: set<nat>, logged: set<nat>, i: nat,
                            off: nat, src: seq<byte>)
    requires Inv(start, datastart) && i < |start.sizes| && off <= start.sizes[i]
  {
    && Inv(h, datastart) && |h.sizes| == |start.sizes|
    && Content(h, datastart, i) == Splice(Content(start, datastart, i), off, src)
    && (forall j :: 0 <= j < |start.sizes| && j != i ==> Content(h, datastart, j) == Content(start, datastart, j))
    && |logged - logged0| <= Touched(off, |src|) + Fresh(off, |src|) + 3
    && Covered(start.blocks, logged0, h.blocks, logged) && Allocates(start, h, i)
    && (NoneLost(start, datastart) ==> NoneLost(h, datastart))
  }

  /** What is known when all of src is written. */
  lemma TrackEnds(start: Files, cur: Files, datastart: nat, logged0: set<nat>, logged: set<nat>, i: nat, off: nat,
                  src: seq<byte>)
    requires Inv(start, datastart) && Owned(cur, datastart) && i < |start.sizes|
    requires off <= start.sizes[i] && off + |src| <= MAXFILE * BSIZE
    requires Track(start, datastart, logged0, i, off, src)(Progress(cur, logged, |src|))
    ensures Inv(Resized(cur, i, off + |src|), datastart) == true
    ensures cur.sizes == start.sizes && (off + |src| <= start.sizes[i] ==> cur.refs == start.refs)
  {
    var charge :| InWrite(start, cur, i, off, src, |src|, logged0, logged, charge);
    FinishWrite(start, cur, datastart, i, off, src);
  }

  /** Whatever satisfies P when all of src is written is fit for the update of the size. */
  ghost predicate EndsWell(P: Progress -> bool, start: Files, datastart: nat, i: nat, src: seq<byte>, off: nat)
    requires i < |start.sizes|
  {
    forall q {:trigger P(q)} :: P(q) && q.tot == |src| && Owned(q.files, datastart) ==>
      && q.files.sizes == start.sizes && Inv(Resized(q.files, i, off + |src|), datastart) == true
      && (off + |src| <= start.sizes[i] ==> q.files.refs == start.refs)
  }

  lemma TrackEndsWell(start: Files, datastart: nat, logged0: set<nat>, i: nat, off: nat, src: seq<byte>)
    requires Inv(start, datastart) && i < |start.sizes| && off <= start.sizes[i] && off + |src| <= MAXFILE * BSIZE
    ensures EndsWell(Track(start, datastart, logged0, i, off, src), start, datastart, i, src, off) == true
  {
    var P := Track(start, datastart, logged0, i, off, src);
    forall q {:trigger P(q)} | P(q) && q.tot == |src| && Owned(q.files, datastart)
      ensures q.files.sizes == start.sizes && Inv(Resized(q.files, i, off + |src|), datastart) == true
      ensures off + |src| <= start.sizes[i] ==> q.files.refs == start.refs
    {
      assert q == Progress(q.files, q.logged, |src|);
      TrackEnds(start, q.files, datastart, logged0, q.logged, i, off, src);
    }
  }

  /** And when the inode block is logged as well, if it is. */
  lemma TrackDone(start: Files, cur: Files, h: Files, datastart: nat, logged0: set<nat>, logged: set<nat>,
                  logged': set<nat>, i: nat, off: nat, src: seq<byte>, inode: nat)
    requires Inv(start, datastart) && Owned(cur, datastart) && i < |start.sizes|
    requires off <= start.sizes[i] && off + |src| <= MAXFILE * BSIZE
    requires logged' == logged || logged' == logged + {inode}
    requires Track(start, datastart, logged0, i, off, src)(Progress(cur, logged, |src|))
    requires cur.sizes == start.sizes && h == Resized(cur, i, off + |src|)
    ensures WriteDone(start, h, datastart, logged0, logged', i, off, src) == true
  {
    var charge :| InWrite(start, cur, i, off, src, |src|, logged0, logged, charge);
    ChargeSize(logged0, logged, charge, cur.refs, i, inode);
    FinishWrite(start, cur, datastart, i, off, src);
  }

  /** The block map and the sizes determine the inodes. */
  lemma DecodesUnique(inodes: seq<Inode>, blocks: Disk, inodes': seq<Inode>, blocks': Disk, refs: map<Slot, nat>)
    requires Decodes(inodes, blocks, refs) && Decodes(inodes', blocks', refs) && Sizes(inodes) == Sizes(inodes')
    ensures inodes == inodes'
  {
    forall i | 0 <= i < |inodes|
      ensures inodes[i] == inodes'[i]
    {
      forall s | 0 <= s <= NDIRECT
        ensures inodes[i].addrs[s] == inodes'[i].addrs[s]
      {
        assert AddrOf(inodes, blocks, Slot(i, s)) == inodes[i].addrs[s];
        assert AddrOf(inodes', blocks', Slot(i, s)) == inodes'[i].addrs[s];
      }
      assert inodes[i].addrs == inodes'[i].addrs;
      assert Sizes(inodes)[i] == Sizes(inodes')[i];
    }
  }

  lemma NoBits(sb: Super, blocks: Disk)
    requires sb.bmapstart + |blocks| / BPB < sb.datastart <= |blocks|
    requires forall b :: 0 <= b < |blocks| ==> blocks[b] == ZeroBlock()
    ensures BitsOk(sb, blocks, {})
  {
    forall b {:trigger Marked(blocks, sb.bmapstart, b)} | 0 <= b < |blocks|
      ensures !Marked(blocks, sb.bmapstart, b)
    {
      NoBit(b % BPB % 8);
    }
  }

  lemma {:induction false} NoBit(k: nat)
    ensures !Bit(0, k)
  {
    if k > 0 {
      NoBit(k - 1);
    }
  }

  lemma FormatOne(sb: Super, blocks: Disk, used: set<nat>, b: nat)
    requires BitsOk(sb, blocks, used) && b < |blocks| && b !in used
    ensures BitsOk(sb, Toggle(blocks, sb.bmapstart, b), used + {b}) == true
    ensures forall c :: sb.datastart <= c < |blocks| ==> Toggle(blocks, sb.bmapstart, b)[c] == blocks[c]
  {
    ToggleBits(sb, blocks, used, b);
  }

  /** A disk of `size` empty blocks, but for a bitmap that marks the blocks for which `taken` says so. */
  method FormatBits(sb: Super, size: nat, taken: nat -> bool) returns (blocks: Disk, ghost used: set<nat>)
    requires sb.bmapstart + size / BPB < sb.datastart <= size
    ensures |blocks| == size && BitsOk(sb, blocks, used)
    ensures forall b {:trigger b in used} :: b in used <==> 0 <= b < size && taken(b)
    ensures forall b :: sb.datastart <= b < size ==> blocks[b] == ZeroBlock()
  {
    blocks, used := seq(size, _ => ZeroBlock()), {};
    NoBits(sb, blocks);
    for b := 0 to size
      invariant |blocks| == size && BitsOk(sb, blocks, used) == true
      invariant forall c {:trigger c in used} :: c in used <==> 0 <= c < b && taken(c)
      invariant forall c :: sb.datastart <= c < size ==> blocks[c] == ZeroBlock()
    {
      if taken(b) {
        FormatOne(sb, blocks, used, b);
        blocks := Toggle(blocks, sb.bmapstart, b);
        used := used + {b};
      }
    }
  }

  lemma NoAddrs(inodes: seq<Inode>, blocks: Disk)
    requires forall i {:trigger inodes[i]} :: 0 <= i < |inodes| ==>
               |inodes[i].addrs| == NDIRECT + 1 && forall s :: 0 <= s <= NDIRECT ==> inodes[i].addrs[s] == 0
    ensures forall x {:trigger AddrOf(inodes, blocks, x)} :: AddrOf(inodes, blocks, x) == 0
  {}

  /** The bitmap blocks that hold the bits of the blocks bs. */
  ghost function BitmapBlocks(start: nat, bs: set<nat>): set<nat> {
    set b | b in bs :: BBlock(start, b)
  }

  lemma BitmapMore(start: nat, bs: set<nat>, b: nat)
    ensures BitmapBlocks(start, bs + {b}) == BitmapBlocks(start, bs) + {BBlock(start, b)}
  {
    assert forall c :: c in BitmapBlocks(start, bs + {b}) <==> c in BitmapBlocks(start, bs) || c == BBlock(start, b);
  }

  /** itrunc of an inode whose blocks are bs stays within the budget of an operation if and only if their bits lie in
  fewer bitmap blocks. */
  lemma TruncateFits(sb: Super, ninodes: nat, nblocks: nat, i: nat, bs: set<nat>)
    requires Layout(sb, ninodes, nblocks) && i < ninodes
    ensures |BitmapBlocks(sb.bmapstart, bs) + {IBlock(sb, i)}| == |BitmapBlocks(sb.bmapstart, bs)| + 1
    ensures |BitmapBlocks(sb.bmapstart, bs) + {IBlock(sb, i)}| <= MAXOPBLOCKS <==>
              |BitmapBlocks(sb.bmapstart, bs)| < MAXOPBLOCKS
  {
    assert IBlock(sb, i) <= IBlock(sb, ninodes - 1) < sb.bmapstart;
    assert IBlock(sb, i) !in BitmapBlocks(sb.bmapstart, bs);
  }

  lemma ReadMore<T>(s: seq<T>, off: nat, a: seq<T>, b: seq<T>)
    requires off + |a| + |b| <= |s| && a == s[off..off + |a|] && b == s[off + |a|..off + |a| + |b|]
    ensures a + b == s[off..off + |a + b|]
  {}

  class Fs {
    const sb: Super
    var blocks: Disk
    var inodes: seq<Inode>
    var logged: set<nat>
    ghost var refs: map<Slot, nat>
    ghost var used: set<nat>

    constructor (sb: Super, blocks: Disk, inodes: seq<Inode>, ghost refs: map<Slot, nat>, ghost used: set<nat>)
      ensures this.sb == sb && this.blocks == blocks && this.inodes == inodes && logged == {}
      ensures this.refs == refs && this.used == used
    {
      this.sb, this.blocks, this.inodes, this.logged, this.refs, this.used := sb, blocks, inodes, {}, refs, used;
    }

    /** A new file system of `size` blocks, in which every file is empty. */
    constructor Format(sb: Super, size: nat, ninodes: nat)
      requires Layout(sb, ninodes, size)
      ensures this.sb == sb && |blocks| == size && |inodes| == ninodes && logged == {} && Valid()
      ensures forall i :: 0 <= i < ninodes ==> File(i) == []
      ensures (forall b {:trigger b in used} :: b in used <==> 0 <= b < sb.datastart) && Tidy()
    {
      var disk;
      ghost var taken;
      disk, taken := FormatBits(sb, size, b => b < sb.datastart);
      this.sb, this.blocks, this.logged := sb, disk, {};
      this.inodes := seq(ninodes, _ => Inode(0, seq(NDIRECT + 1, _ => 0)));
      this.refs, this.used := map[], taken;
      new;
      NoAddrs(inodes, blocks);
    }

    /** The files this disk and these inodes represent. */
    ghost function Abs(): Files
      reads this
    {
      Files(refs, Sizes(inodes), used, blocks)
    }

    ghost predicate Valid()
      reads this
    {
      && Layout(sb, |inodes|, |blocks|) && BitsOk(sb, blocks, used)
      && Decodes(inodes, blocks, refs) && Inv(Abs(), sb.datastart)
    }

    /** bzero on a block that no slot refers to yet. */
    method Bzero(b: nat)
      requires Valid() && b < |blocks| && sb.datastart <= b && (forall x :: x in refs ==> refs[x] != b)
      modifies this`blocks, this`logged
      ensures Valid() && blocks == old(blocks)[b := ZeroBlock()] && logged == old(logged) + {b}
      ensures Grows(old(Abs()), Abs())
    {
      StoreBits(sb, blocks, used, b, ZeroBlock());
      DecodesFrame(inodes, blocks, blocks[b := ZeroBlock()], refs);
      ZeroKeeps(Abs(), sb.datastart, b, ZeroBlock());
      blocks := blocks[b := ZeroBlock()];
      logged := logged + {b};
    }

    /** Sets the bitmap bit of the free block b. */
    method Mark(b: nat)
      requires Valid() && b < |blocks| && b !in used
      modifies this`blocks, this`logged, this`used
      ensures Valid() && used == old(used) + {b} && logged == old(logged) + {BBlock(sb.bmapstart, b)}
      ensures Covered(old(blocks), old(logged), blocks, logged)
      ensures forall c :: sb.datastart <= c < |blocks| ==> blocks[c] == old(blocks)[c]
      ensures Grows(old(Abs()), Abs())
    {
      ToggleBits(sb, blocks, used, b);
      var blocks' := Toggle(blocks, sb.bmapstart, b);
      DecodesFrame(inodes, blocks, blocks', refs);
      MarkKeeps(Abs(), sb.datastart, blocks', b);
      blocks := blocks';
      logged := logged + {BBlock(sb.bmapstart, b)};
      used := used + {b};
    }

    /** balloc: the first block the bitmap leaves free, marked and zeroed, or -1 where the kernel
    panics because there is none. */
    method Balloc() returns (r: int)
      requires Valid()
      modifies this`blocks, this`logged, this`used
      ensures Valid() == true
      ensures r < 0 <==> forall b :: 0 <= b < |old(blocks)| ==> b in old(used)
      ensures r < 0 ==> blocks == old(blocks) && logged == old(logged) && used == old(used)
      ensures r >= 0 ==>
                && sb.datastart <= r < |blocks| && r !in old(used) && (forall b :: 0 <= b < r ==> b in old(used))
                && used == old(used) + {r} && logged == old(logged) + {BBlock(sb.bmapstart, r), r}
                && |blocks| == |old(blocks)| && blocks[r] == ZeroBlock()
                && (forall c :: sb.datastart <= c < |blocks| && c != r ==> blocks[c] == old(blocks)[c])
      ensures Covered(old(blocks), old(logged), blocks, logged) == true && Grows(old(Abs()), Abs()) == true
    {
      r := FindFree();
      if r >= 0 {
        ghost var before := Abs();
        Mark(r);
        ghost var marked := Abs();
        Bzero(r);
        GrowsTrans(before, marked, Abs());
      }
    }

    /** The inner loop of balloc: over the bits of the bitmap block for b. */
    method FindInBlock(b: nat) returns (bi: nat)
      requires BitsOk(sb, blocks, used) == true && b < |blocks| && b % BPB == 0
      ensures bi <= BPB && b + bi <= |blocks|
      ensures forall c :: b <= c < b + bi ==> c in used
      ensures bi < BPB && b + bi < |blocks| ==> b + bi !in used
    {
      UsedBit(sb, blocks, used, b, 0);
      var bp := blocks[BBlock(sb.bmapstart, b)];
      bi := 0;
      while bi < BPB && b + bi < |blocks|
        invariant bi <= BPB && b + bi <= |blocks|
        invariant forall c :: b <= c < b + bi ==> c in used
      {
        UsedBit(sb, blocks, used, b, bi);
        if !BlockBit(bp, bi) {
          return;
        }
        bi := bi + 1;
      }
    }

    /** The outer loop of balloc, over the bitmap blocks. */
    method FindFree() returns (r: int)
      requires Layout(sb, |inodes|, |blocks|) && BitsOk(sb, blocks, used) == true
      ensures -1 <= r < |blocks|
      ensures r < 0 ==> forall b :: 0 <= b < |blocks| ==> b in used
      ensures r >= 0 ==> r !in used && forall b :: 0 <= b < r ==> b in used
    {
      var b := 0;
      while b < |blocks|
        invariant 0 <= b && b % BPB == 0
        invariant forall c :: 0 <= c < b && c < |blocks| ==> c in used
      {
        var bi := FindInBlock(b);
        if bi < BPB && b + bi < |blocks| {
          return b + bi;
        }
        b := b + BPB;
      }
      r := -1;
    }

    /** Every block is allocated. */
    ghost predicate Full()
      reads this
    {
      forall b :: 0 <= b < |blocks| ==> b in used
    }

    /** Every allocated data block is part of a file. */
    ghost predicate Tidy()
      reads this
    {
      NoneLost(Abs(), sb.datastart)
    }

    /** Nothing has changed. */
    twostate predicate Same()
      reads this
    {
      Abs() == old(Abs()) && inodes == old(inodes) && logged == old(logged)
    }

    /** The block in addrs[s] of inode i, allocated if there is none; -1 where balloc panics.
    bits: the bitmap block logged, if any. */
    method EnsureSlot(i: nat, s: nat) returns (r: int, ghost bits: seq<nat>)
      requires Valid() && i < |inodes| && s <= NDIRECT
      modifies this
      ensures Valid() && Grows(old(Abs()), Abs()) && Covered(old(blocks), old(logged), blocks, logged)
      ensures r >= 0 && old(Tidy()) ==> Tidy()
      ensures r >= 0 ==> Allocates(old(Abs()), Abs(), i) == true && |used| <= |old(used)| + |bits|
      ensures Slot(i, s) in old(refs) ==> Same() && r == refs[Slot(i, s)] && bits == []
      ensures Slot(i, s) !in old(refs) && r >= 0 ==>
                && refs == old(refs)[Slot(i, s) := r] && |bits| == 1
                && Charged(old(logged), logged, Charge([r], bits), map[], i)
      ensures r < 0 ==> Full() && used == old(used)
    {
      assert Slot(i, s) in refs <==> AddrOf(inodes, blocks, Slot(i, s)) != 0;
      bits := [];
      r := inodes[i].addrs[s];
      if r == 0 {
        ghost var before := Abs();
        r := Balloc();
        if r >= 0 {
          bits := [BBlock(sb.bmapstart, r)];
          ghost var middle := Abs();
          LinkRef(middle, sb.datastart, Slot(i, s), r);
          DecodesLinkDirect(inodes, blocks, refs, i, s, r);
          inodes := inodes[i := inodes[i].(addrs := inodes[i].addrs[s := r])];
          refs := refs[Slot(i, s) := r];
          assert Sizes(inodes) == middle.sizes;
          GrowsTrans(before, middle, Abs());
          LinkedNotLost(before, Abs(), sb.datastart, Slot(i, s), r);
          LinkAllocates(before, Abs(), Slot(i, s), r);
        }
      }
    }

    /** The block in entry t of the indirect block of inode i, allocated if there is none. */
    method EnsureEntry(i: nat, t: nat) returns (r: int, ghost bits: seq<nat>)
      requires Valid() && i < |inodes| && t < NINDIRECT && IndirectSlot(i) in refs
      modifies this
      ensures Valid() == true && Grows(old(Abs()), Abs()) == true
      ensures Covered(old(blocks), old(logged), blocks, logged) == true
      ensures r >= 0 && old(Tidy()) ==> Tidy() == true
      ensures r >= 0 ==> Allocates(old(Abs()), Abs(), i) == true && |used| <= |old(used)| + |bits|
      ensures Slot(i, NDIRECT + 1 + t) in old(refs) ==>
                Same() && r == refs[Slot(i, NDIRECT + 1 + t)] && bits == []
      ensures Slot(i, NDIRECT + 1 + t) !in old(refs) && r >= 0 ==>
                && refs == old(refs)[Slot(i, NDIRECT + 1 + t) := r] && |bits| == 1
                && Charged(old(logged), logged, Charge([r], bits), refs, i) == true
      ensures r < 0 ==> Full() && used == old(used)
    {
      ghost var x := Slot(i, NDIRECT + 1 + t);
      assert IndirectSlot(i) in refs && refs[IndirectSlot(i)] == AddrOf(inodes, blocks, IndirectSlot(i));
      var ind := inodes[i].addrs[NDIRECT];
      assert x in refs <==> AddrOf(inodes, blocks, x) != 0;
      bits := [];
      r := Word(blocks[ind], t);
      if r == 0 {
        r, bits := AllocEntry(i, t);
      }
    }

    /** The same for an entry that is empty. */
    method AllocEntry(i: nat, t: nat) returns (r: int, ghost bits: seq<nat>)
      requires Valid() && i < |inodes| && t < NINDIRECT && IndirectSlot(i) in refs && Slot(i, NDIRECT + 1 + t) !in refs
      modifies this
      ensures Valid() == true && Grows(old(Abs()), Abs()) == true
      ensures Covered(old(blocks), old(logged), blocks, logged) == true
      ensures r >= 0 && old(Tidy()) ==> Tidy() == true
      ensures r >= 0 ==> Allocates(old(Abs()), Abs(), i) == true && |used| <= |old(used)| + |bits|
      ensures r >= 0 ==>
                && refs == old(refs)[Slot(i, NDIRECT + 1 + t) := r] && |bits| == 1
                && Charged(old(logged), logged, Charge([r], bits), refs, i) == true
      ensures r < 0 ==> Full() && used == old(used)
    {
      ghost var before, logged0 := Abs(), logged;
      bits := [];
      r := Balloc();
      if r >= 0 {
        bits := [BBlock(sb.bmapstart, r)];
        ghost var middle, logged1 := Abs(), logged;
        LinkEntry(i, t, r);
        GrowsTrans(before, middle, Abs());
        CoveredTrans(before.blocks, logged0, middle.blocks, logged1, blocks, logged);
        LinkedNotLost(before, Abs(), sb.datastart, Slot(i, NDIRECT + 1 + t), r);
        LinkAllocates(before, Abs(), Slot(i, NDIRECT + 1 + t), r);
      }
    }

    /** a[bn] = addr and log_write of the indirect block, for a freshly allocated block b. */
    method LinkEntry(i: nat, t: nat, b: nat)
      requires Valid() && i < |inodes| && t < NINDIRECT && IndirectSlot(i) in refs
      requires Slot(i, NDIRECT + 1 + t) !in refs && sb.datastart <= b < |blocks| && b in used
      requires forall y :: y in refs ==> refs[y] != b
      modifies this`blocks, this`refs, this`logged
      ensures Valid() == true && Grows(old(Abs()), Abs()) == true
      ensures Covered(old(blocks), old(logged), blocks, logged) == true
      ensures refs == old(refs)[Slot(i, NDIRECT + 1 + t) := b] && logged == old(logged) + {refs[IndirectSlot(i)]}
    {
      ghost var x, before := Slot(i, NDIRECT + 1 + t), Abs();
      assert refs[IndirectSlot(i)] == AddrOf(inodes, blocks, IndirectSlot(i));
      var ind := inodes[i].addrs[NDIRECT];
      var v := SetWord(blocks[ind], t, b);
      DecodesLinkEntry(inodes, blocks, refs, i, t, b);
      StoreBits(sb, blocks, used, ind, v);
      StoreKeeps(before, sb.datastart, IndirectSlot(i), v);
      ghost var middle := Store(before, ind, v);
      LinkRef(middle, sb.datastart, x, b);
      blocks := blocks[ind := v];
      refs := refs[x := b];
      logged := logged + {ind};
      GrowsTrans(before, middle, Abs());
    }

    /** The branch of bmap for blocks behind the direct ones. */
    method BmapIndirect(i: nat, bn: nat) returns (r: int, ghost bits: seq<nat>)
      requires Valid() && i < |inodes| && NDIRECT <= bn < MAXFILE
      modifies this
      ensures Valid() == true && Grows(old(Abs()), Abs()) == true
      ensures Covered(old(blocks), old(logged), blocks, logged) == true
      ensures r >= 0 && old(Tidy()) ==> Tidy() == true
      ensures r >= 0 ==> Allocates(old(Abs()), Abs(), i) == true && |used| <= |old(used)| + |bits|
      ensures DataSlot(i, bn) in old(refs) ==> Same() && r >= 0 && bits == []
      ensures r >= 0 ==> DataSlot(i, bn) in refs && refs[DataSlot(i, bn)] == r
      ensures r >= 0 ==> Charged(old(logged), logged, Charge([r], bits), refs, i) == true
      ensures r >= 0 ==> |bits| <= (if DataSlot(i, bn) in old(refs) then 0 else 1) + NewIndirect(old(refs), refs, i)
      ensures r < 0 ==> Full() && |used| <= |old(used)| + if IndirectSlot(i) in old(refs) then 0 else 1
    {
      ghost var before := Abs();
      var t := bn - NDIRECT;
      assert DataSlot(i, bn) == Slot(i, NDIRECT + 1 + t);
      assert DataSlot(i, bn) in refs ==> IndirectSlot(i) in refs by {
        assert AddrOf(inodes, blocks, IndirectSlot(i)) == inodes[i].addrs[NDIRECT];
      }
      ghost var bits1, bits2;
      r, bits1 := EnsureSlot(i, NDIRECT);
      bits := [];
      if r >= 0 {
        ghost var middle, logged1, ind := Abs(), logged, r;
        r, bits2 := EnsureEntry(i, t);
        bits := bits1 + bits2;
        GrowsTrans(before, middle, Abs());
        CoveredTrans(old(blocks), old(logged), middle.blocks, logged1, blocks, logged);
        if r >= 0 {
          AllocatesTrans(before, middle, Abs(), i);
          ChargePair(old(logged), logged1, logged, bits1, bits2, ind, r, refs, i);
        }
      }
    }

    /** The branch of bmap for the direct blocks. */
    method BmapDirect(i: nat, bn: nat) returns (r: int, ghost bits: seq<nat>)
      requires Valid() && i < |inodes| && bn < NDIRECT
      modifies this
      ensures Valid() == true && Grows(old(Abs()), Abs()) == true
      ensures Covered(old(blocks), old(logged), blocks, logged) == true
      ensures r >= 0 && old(Tidy()) ==> Tidy() == true
      ensures r >= 0 ==> Allocates(old(Abs()), Abs(), i) == true && |used| <= |old(used)| + |bits|
      ensures DataSlot(i, bn) in old(refs) ==> Same() && r >= 0 && bits == []
      ensures r >= 0 ==> DataSlot(i, bn) in refs && refs[DataSlot(i, bn)] == r
      ensures r >= 0 ==> Charged(old(logged), logged, Charge([r], bits), refs, i) == true
      ensures r >= 0 ==> |bits| <= (if DataSlot(i, bn) in old(refs) then 0 else 1) + NewIndirect(old(refs), refs, i)
      ensures r < 0 ==> Full() && used == old(used)
    {
      assert DataSlot(i, bn) == Slot(i, bn);
      r, bits := EnsureSlot(i, bn);
    }

    /** bmap: the block of file block bn, allocating it and the indirect block if need be; -1 where
    the kernel panics.  bits: the bitmap blocks logged. */
    method Bmap(i: nat, bn: nat) returns (r: int, ghost bits: seq<nat>)
      requires Valid() && i < |inodes|
      modifies this
      ensures Valid() == true && Grows(old(Abs()), Abs()) == true
      ensures Covered(old(blocks), old(logged), blocks, logged) == true
      ensures r >= 0 && old(Tidy()) ==> Tidy() == true
      ensures r >= 0 ==> Allocates(old(Abs()), Abs(), i) == true && |used| <= |old(used)| + |bits|
      ensures DataSlot(i, bn) in old(refs) ==> Same() && r >= 0 && bits == []
      ensures r >= 0 ==> bn < MAXFILE && DataSlot(i, bn) in refs && refs[DataSlot(i, bn)] == r
      ensures r >= 0 ==> Charged(old(logged), logged, Charge([r], bits), refs, i) == true
      ensures r >= 0 ==> |bits| <= (if DataSlot(i, bn) in old(refs) then 0 else 1) + NewIndirect(old(refs), refs, i)
      ensures r < 0 && bn < MAXFILE ==> Full() && |used| <= |old(used)| + if IndirectSlot(i) in old(refs) then 0 else 1
    {
      if bn < NDIRECT {
        r, bits := BmapDirect(i, bn);
      } else if bn - NDIRECT < NINDIRECT {
        r, bits := BmapIndirect(i, bn);
      } else {
        NoSuchBlock(inodes, blocks, refs, i, bn);
        r, bits := -1, [];
      }
    }

    /** memmove into the block of a linked data slot, and log_write. */
    method PutBlock(i: nat, addr: nat, pos: nat, chunk: seq<byte>)
      requires Valid() && DataSlot(i, pos / BSIZE) in refs && refs[DataSlot(i, pos / BSIZE)] == addr
      requires pos % BSIZE + |chunk| <= BSIZE
      modifies this`blocks, this`logged
      ensures Valid() && |blocks| == |old(blocks)| && logged == old(logged) + {addr}
      ensures Abs() == Store(old(Abs()), addr, Patch(old(blocks)[addr], pos % BSIZE, chunk))
    {
      ghost var x := DataSlot(i, pos / BSIZE);
      var v := Patch(blocks[addr], pos % BSIZE, chunk);
      StoreKeeps(Abs(), sb.datastart, x, v);
      StoreBits(sb, blocks, used, addr, v);
      DecodesFrame(inodes, blocks, blocks[addr := v], refs);
      blocks := blocks[addr := v];
      logged := logged + {addr};
    }

    /** The call of bmap in the loop of writei, for the chunk at offset pos. */
    method MapPass(i: nat, pos: nat, ghost chunk: seq<byte>, ghost q: Progress) returns (addr: int, ghost p: Pass)
      requires Valid() && i < |inodes| && pos / BSIZE < MAXFILE && pos % BSIZE + |chunk| <= BSIZE && 0 < |chunk|
      requires q.files == Abs() && q.logged == logged
      modifies this
      ensures addr < 0 ==> Full() == true && DataSlot(i, pos / BSIZE) !in q.files.refs && |blocks| == |q.files.blocks|
      ensures addr < 0 ==> |used| <= |q.files.used| + if IndirectSlot(i) in q.files.refs then 0 else 1
      ensures addr >= 0 ==> Valid() == true && |inodes| == |old(inodes)|
      ensures addr >= 0 ==> DataSlot(i, pos / BSIZE) in refs && refs[DataSlot(i, pos / BSIZE)] == addr == p.addr
      ensures addr >= 0 ==> p.mapped == Abs() && p.logged == logged + {p.addr}
      ensures addr >= 0 ==> PassOk(p, q, sb.datastart, i, pos, chunk) == true
    {
      ghost var bits;
      addr, bits := Bmap(i, pos / BSIZE);
      p := Pass(q.files, [], 0, {});
      if addr >= 0 {
        p := Pass(Abs(), bits, addr, logged + {addr});
        MakePass(q, p, logged, sb.datastart, i, pos, chunk);
      }
    }

    /** One pass of the loop of writei: the next chunk into the block that holds its offset. */
    method WriteBlock(i: nat, src: seq<byte>, off: nat, tot: nat, ghost P: Progress -> bool) returns (ok: bool, m: nat)
      requires Valid() && i < |inodes| && tot < |src| && off + |src| <= MAXFILE * BSIZE
      requires P(Progress(Abs(), logged, tot)) && KeptByPasses(P, sb.datastart, i, src, off)
      modifies this
      ensures !ok ==> Full() == true && GetsStuck(P, i, src, off) == true
      ensures 0 < m <= |src| - tot
      ensures ok ==> Valid() == true && |inodes| == |old(inodes)| && P(Progress(Abs(), logged, tot + m))
    {
      var pos, chunk := off + tot, NextChunk(src, off, tot);
      m := |chunk|;
      var addr;
      ghost var p;
      ghost var q := Progress(Abs(), logged, tot);
      addr, p := MapPass(i, pos, chunk, q);
      ok := addr >= 0;
      if !ok {
        NowStuck(P, q, used, i, src, off);
      } else {
        PutBlock(i, addr, pos, chunk);
        UsePass(P, sb.datastart, i, src, off, p, q, pos, chunk, Progress(Abs(), logged, tot + m));
      }
    }

    /** The loop of writei.  P is any property of its progress that every pass keeps. */
    method WriteLoop(i: nat, src: seq<byte>, off: nat, ghost P: Progress -> bool) returns (ok: bool)
      requires Valid() && i < |inodes| && off + |src| <= MAXFILE * BSIZE
      requires P(Progress(Abs(), logged, 0)) && KeptByPasses(P, sb.datastart, i, src, off)
      modifies this
      ensures !ok ==> Full() == true && GetsStuck(P, i, src, off) == true
      ensures ok ==> Valid() == true && |inodes| == |old(inodes)| && P(Progress(Abs(), logged, |src|))
    {
      var tot, m := 0, 0;
      ok := true;
      while tot < |src|
        invariant 0 <= tot <= |src| && Valid() == true && |inodes| == |old(inodes)|
        invariant P(Progress(Abs(), logged, tot))
      {
        ok, m := WriteBlock(i, src, off, tot, P);
        if !ok {
          return;
        }
        tot := tot + m;
      }
    }

    /** The bytes of file i. */
    ghost function File(i: nat): seq<byte>
      reads this
      requires Valid() && i < |inodes|
    {
      Content(Abs(), sb.datastart, i)
    }

    /** ip->size = off and iupdate, where a write has grown the file. */
    method Grow(i: nat, end: nat)
      requires Valid() && i < |inodes| && end > inodes[i].size
      requires Inv(Resized(Abs(), i, end), sb.datastart)
      modifies this`inodes, this`logged
      ensures Valid() && |inodes| == |old(inodes)| && logged == old(logged) + {IBlock(sb, i)}
      ensures Abs() == Resized(old(Abs()), i, end)
    {
      ghost var before, inodes0 := Abs(), inodes;
      inodes := inodes[i := inodes[i].(size := end)];
      logged := logged + {IBlock(sb, i)};
      forall x
        ensures AddrOf(inodes, blocks, x) == AddrOf(inodes0, blocks, x)
      {}
      assert Sizes(inodes) == before.sizes[i := end];
    }

    /** What has become of these files, this log and these inodes by a write of src to file i at offset off. */
    ghost predicate Wrote(start: Files, logged0: set<nat>, inodes0: seq<Inode>, i: nat, src: seq<byte>, off: nat)
      reads this
      requires Inv(start, sb.datastart) && i < |start.sizes| && off <= start.sizes[i]
    {
      && Valid() && |inodes| == |inodes0| && WriteDone(start, Abs(), sb.datastart, logged0, logged, i, off, src)
      && (off + |src| <= start.sizes[i] ==> inodes == inodes0)
      && (inodes != inodes0 ==> IBlock(sb, i) in logged)
    }

    /** writei once its checks have passed: the loop, then the size update.  A write that stays
    within the file leaves the inode as it is, so that skipping iupdate loses nothing. */
    method WriteAll(i: nat, src: seq<byte>, off: nat) returns (ok: bool)
      requires Valid() && i < |inodes| && off <= inodes[i].size && off + |src| <= MAXFILE * BSIZE
      modifies this
      ensures !ok ==> Full() && |old(blocks)| <= |old(used)| + Fresh(off, |src|)
      ensures ok ==> Wrote(old(Abs()), old(logged), old(inodes), i, src, off) == true
    {
      ghost var start, logged0 := Abs(), logged;
      ghost var P := Track(start, sb.datastart, logged0, i, off, src);
      ghost var cur;
      TrackKept(start, sb.datastart, logged0, i, off, src);
      TrackEndsWell(start, sb.datastart, logged0, i, off, src);
      ok, cur := WriteAndUpdate(i, src, off, P, start);
      if ok {
        TrackDone(start, cur.files, Abs(), sb.datastart, logged0, cur.logged, logged, i, off, src, IBlock(sb, i));
      } else {
        TrackStuck(start, sb.datastart, logged0, i, off, src);
      }
    }

    /** The loop and the size update; cur is the progress between them. */
    method WriteAndUpdate(i: nat, src: seq<byte>, off: nat, ghost P: Progress -> bool, ghost start: Files)
      returns (ok: bool, ghost cur: Progress)
      requires Valid() && i < |inodes| && off <= inodes[i].size && off + |src| <= MAXFILE * BSIZE && start == Abs()
      requires P(Progress(Abs(), logged, 0)) && KeptByPasses(P, sb.datastart, i, src, off)
      requires EndsWell(P, start, sb.datastart, i, src, off) == true
      modifies this
      ensures !ok ==> Full() == true && GetsStuck(P, i, src, off) == true
      ensures ok ==> Valid() == true && |inodes| == |old(inodes)| && P(cur) && cur.tot == |src|
      ensures ok ==> Owned(cur.files, sb.datastart) && cur.files.sizes == start.sizes
      ensures ok ==> Abs() == Resized(cur.files, i, off + |src|)
      ensures ok ==> logged == cur.logged || logged == cur.logged + {IBlock(sb, i)}
      ensures ok && off + |src| <= start.sizes[i] ==> inodes == old(inodes)
      ensures ok && inodes != old(inodes) ==> IBlock(sb, i) in logged
    {
      ghost var inodes0 := inodes;
      ok := WriteLoop(i, src, off, P);
      cur := Progress(Abs(), logged, |src|);
      if ok {
        assert P(cur);
        UpdateSize(i, off + |src|, |src|, inodes0, start.blocks);
      }
    }

    /** The end of writei of n bytes up to offset `end`. */
    method UpdateSize(i: nat, end: nat, n: nat, ghost inodes0: seq<Inode>, ghost blocks0: Disk)
      requires Valid() && i < |inodes| && Inv(Resized(Abs(), i, end), sb.datastart)
      requires n == 0 ==> end <= inodes[i].size
      requires Sizes(inodes0) == Sizes(inodes) && (end <= inodes[i].size ==> Decodes(inodes0, blocks0, refs))
      modifies this`inodes, this`logged
      ensures Valid() && |inodes| == |old(inodes)| && Abs() == Resized(old(Abs()), i, end)
      ensures if end <= old(inodes[i].size) then inodes == inodes0 && logged == old(logged)
              else logged == old(logged) + {IBlock(sb, i)}
    {
      if n > 0 && end > inodes[i].size {
        Grow(i, end);
      } else {
        DecodesUnique(inodes0, blocks0, inodes, blocks, refs);
        assert Abs().sizes[i := inodes[i].size] == Abs().sizes;
      }
    }

    /** writei: the first n bytes of src go to offset off of file i.  Offsets and counts are 32-bit,
    and their sum is compared as a 32-bit number. */
    method Writei(i: nat, src: seq<byte>, off: nat, n: nat) returns (r: Outcome)
      requires Valid() && i < |inodes| && off < WORD_LIMIT && n < WORD_LIMIT && n <= |src|
      modifies this
      ensures r.Refused? <==> off > old(inodes[i].size) || off + n > MAXFILE * BSIZE
      ensures r.Refused? ==> Same()
      ensures r.Panic? ==> Full() && |old(blocks)| <= |old(used)| + Fresh(off, n)
      ensures r.Done? ==> r.count == n && Valid() && |inodes| == |old(inodes)|
      ensures r.Done? ==> File(i) == Splice(old(File(i)), off, src[..n])
      ensures r.Done? ==> forall j :: 0 <= j < |inodes| && j != i ==> File(j) == old(File(j))
      ensures r.Done? && off + n <= old(inodes[i].size) ==> inodes == old(inodes)
      ensures r.Done? ==> |logged - old(logged)| <= Touched(off, n) + Fresh(off, n) + 3
      ensures r.Done? ==> Covered(old(blocks), old(logged), blocks, logged)
      ensures r.Done? && inodes != old(inodes) ==> IBlock(sb, i) in logged
      ensures r.Done? && old(Tidy()) ==> Tidy()
      ensures r.Done? ==> Allocates(old(Abs()), Abs(), i)
    {
      var sum := (off + n) % WORD_LIMIT;
      if off > inodes[i].size || sum < off {
        return Refused;
      }
      if sum > MAXFILE * BSIZE {
        return Refused;
      }
      var ok := WriteAll(i, src[..n], off);
      r := if ok then Done(n) else Panic;
    }

    /** One pass of the loop of readi: m bytes from the block that holds offset pos. */
    method ReadBlock(i: nat, pos: nat, m: nat) returns (chunk: seq<byte>)
      requires Valid() && i < |inodes| && 0 < m && pos + m <= inodes[i].size && pos % BSIZE + m <= BSIZE
      modifies this
      ensures Valid() && Same() && chunk == old(File(i))[pos..pos + m]
    {
      BlockOfFile(Abs(), sb.datastart, i, pos, m);
      var addr;
      ghost var bits;
      addr, bits := Bmap(i, pos / BSIZE);
      chunk := blocks[addr][pos % BSIZE..pos % BSIZE + m];
    }

    /** readi: up to n bytes of file i from offset off.  bmap may allocate in general, but not here,
    since no file has a hole. */
    method Readi(i: nat, off: nat, n: nat) returns (r: Outcome, dst: seq<byte>)
      requires Valid() && i < |inodes| && off < WORD_LIMIT && n < WORD_LIMIT
      modifies this
      ensures r.Refused? <==> off > old(inodes[i].size) || off + n >= WORD_LIMIT
      ensures Valid() && Same() && !r.Panic?
      ensures r.Done? ==>
                var file := old(File(i));
                r.count == |dst| && dst == file[off..if off + n > |file| then |file| else off + n]
    {
      dst := [];
      if off > inodes[i].size || (off + n) % WORD_LIMIT < off {
        return Refused, dst;
      }
      var count := if off + n > inodes[i].size then inodes[i].size - off else n;
      dst := ReadLoop(i, off, count);
      r := Done(count);
    }

    method ReadLoop(i: nat, off: nat, count: nat) returns (dst: seq<byte>)
      requires Valid() && i < |inodes| && off + count <= inodes[i].size
      modifies this
      ensures Valid() && Same() && dst == old(File(i))[off..off + count]
    {
      dst := [];
      ghost var file := File(i);
      while |dst| < count
        invariant |dst| <= count && Valid() == true && Same() == true && dst == file[off..off + |dst|]
        decreases count - |dst|
      {
        var m := ChunkLen(off + |dst|, count - |dst|);
        var chunk := ReadBlock(i, off + |dst|, m);
        ReadMore(file, off, dst, chunk);
        dst := dst + chunk;
      }
    }

    /** bfree: clears the bit of block b; false where the kernel panics because it is clear. */
    method Bfree(b: nat) returns (ok: bool)
      requires BitsOk(sb, blocks, used) && b < |blocks|
      modifies this`blocks, this`used, this`logged
      ensures BitsOk(sb, blocks, used) && |blocks| == |old(blocks)| && (ok <==> b in old(used))
      ensures forall c :: sb.datastart <= c < |blocks| ==> blocks[c] == old(blocks)[c]
      ensures used == old(used) - {b}
      ensures logged == if ok then old(logged) + {BBlock(sb.bmapstart, b)} else old(logged)
      ensures Covered(old(blocks), old(logged), blocks, logged)
    {
      assert b in used <==> Marked(blocks, sb.bmapstart, b);
      var at := BBlock(sb.bmapstart, b);
      ok := BlockBit(blocks[at], b % BPB);
      if ok {
        ToggleBits(sb, blocks, used, b);
        blocks := Toggle(blocks, sb.bmapstart, b);
        logged := logged + {at};
        used := used - {b};
      }
    }

    /** itrunc has freed the first k slots of inode i of f, starting from the log logged0. */
    ghost predicate Freeing(f: Files, i: nat, k: nat, logged0: set<nat>)
      reads this
    {
      && BitsOk(sb, blocks, used) && |blocks| == |f.blocks|
      && (forall c :: sb.datastart <= c < |blocks| ==> blocks[c] == f.blocks[c])
      && used == f.used - FreedUpTo(f, i, k)
      && logged == logged0 + BitmapBlocks(sb.bmapstart, FreedUpTo(f, i, k))
      && Covered(f.blocks, logged0, blocks, logged)
    }

    /** Free the block that slot k holds, if it holds one. */
    method FreeSlot(addr: nat, ghost f: Files, ghost i: nat, ghost k: nat, ghost logged0: set<nat>)
        returns (ok: bool)
      requires Freeing(f, i, k, logged0) && Owned(f, sb.datastart) && k <= MAXFILE && PositionsOk(f)
      requires addr == if SlotAt(i, k) in f.refs then f.refs[SlotAt(i, k)] else 0
      modifies this`blocks, this`used, this`logged
      ensures Freeing(f, i, k + 1, logged0) && ok
    {
      FreeNext(f, sb.datastart, i, k);
      BitmapMore(sb.bmapstart, FreedUpTo(f, i, k), addr);
      ok := true;
      if addr != 0 {
        ghost var blocks1, logged1 := blocks, logged;
        ok := Bfree(addr);
        CoveredTrans(f.blocks, logged0, blocks1, logged1, blocks, logged);
      }
    }

    /** The first loop of itrunc, over the direct blocks. */
    method FreeDirect(i: nat, ghost f: Files, ghost logged0: set<nat>) returns (ok: bool)
      requires Valid() && i < |inodes| && f == Abs() && PositionsOk(f) && logged0 == logged
      modifies this
      ensures ok && Freeing(f, i, NDIRECT, logged0) && refs == old(refs)
      ensures |inodes| == |old(inodes)| && forall j :: 0 <= j < |inodes| && j != i ==> inodes[j] == old(inodes)[j]
      ensures inodes[i].size == old(inodes[i].size) && |inodes[i].addrs| == NDIRECT + 1
      ensures inodes[i].addrs[NDIRECT] == old(inodes[i].addrs[NDIRECT])
      ensures forall s :: 0 <= s < NDIRECT ==> inodes[i].addrs[s] == 0
    {
      FreedAll(f, i);
      ghost var inodes0, blocks0 := inodes, blocks;
      ok := true;
      var s := 0;
      while s < NDIRECT
        invariant 0 <= s <= NDIRECT && ok && Freeing(f, i, s, logged0) && refs == f.refs
        invariant |inodes| == |inodes0| && forall j :: 0 <= j < |inodes| && j != i ==> inodes[j] == inodes0[j]
        invariant inodes[i].size == inodes0[i].size && |inodes[i].addrs| == NDIRECT + 1
        invariant forall t :: s <= t <= NDIRECT ==> inodes[i].addrs[t] == inodes0[i].addrs[t]
        invariant forall t :: 0 <= t < s ==> inodes[i].addrs[t] == 0
      {
        assert AddrOf(inodes0, blocks0, Slot(i, s)) == inodes0[i].addrs[s];
        ok := FreeSlot(inodes[i].addrs[s], f, i, s, logged0);
        inodes := inodes[i := inodes[i].(addrs := inodes[i].addrs[s := 0])];
        s := s + 1;
      }
    }

    /** The second loop of itrunc, over the entries v of the indirect block, and the block itself. */
    method FreeIndirect(ind: nat, v: Block, ghost i: nat, ghost f: Files, ghost logged0: set<nat>) returns (ok: bool)
      requires Freeing(f, i, NDIRECT, logged0) && Owned(f, sb.datastart) && PositionsOk(f)
      requires IndirectSlot(i) in f.refs && f.refs[IndirectSlot(i)] == ind
      requires forall t {:trigger Word(v, t)} :: 0 <= t < NINDIRECT ==>
                 var x := Slot(i, NDIRECT + 1 + t); Word(v, t) == if x in f.refs then f.refs[x] else 0
      modifies this`blocks, this`used, this`logged
      ensures ok && Freeing(f, i, MAXFILE + 1, logged0)
    {
      ok := true;
      var t := 0;
      while t < NINDIRECT
        invariant 0 <= t <= NINDIRECT && ok && Freeing(f, i, NDIRECT + t, logged0)
      {
        ok := FreeSlot(Word(v, t), f, i, NDIRECT + t, logged0);
        t := t + 1;
      }
      ok := FreeSlot(ind, f, i, MAXFILE, logged0);
    }

    /** Both loops of itrunc: free every block of inode i and clear its addresses. */
    method FreeBlocks(i: nat, ghost f: Files) returns (ok: bool)
      requires Valid() && i < |inodes| && f == Abs()
      modifies this
      ensures ok && refs == old(refs) && BitsOk(sb, blocks, used) && used == f.used - BlocksOf(f, i)
      ensures logged == old(logged) + BitmapBlocks(sb.bmapstart, BlocksOf(f, i))
      ensures Covered(old(blocks), old(logged), blocks, logged)
      ensures |blocks| == |f.blocks| && forall c :: sb.datastart <= c < |blocks| ==> blocks[c] == f.blocks[c]
      ensures |inodes| == |old(inodes)| && forall j :: 0 <= j < |inodes| && j != i ==> inodes[j] == old(inodes)[j]
      ensures inodes[i].size == old(inodes[i].size) && |inodes[i].addrs| == NDIRECT + 1
      ensures forall s :: 0 <= s <= NDIRECT ==> inodes[i].addrs[s] == 0
    {
      ghost var inodes0, blocks0 := inodes, blocks;
      DecodedPositions(inodes, blocks, refs);
      assert IndirectSlot(i) in refs <==> AddrOf(inodes, blocks, IndirectSlot(i)) != 0;
      ok := FreeDirect(i, f, old(logged));
      FreedAll(f, i);
      var ind := inodes[i].addrs[NDIRECT];
      if ind != 0 {
        IndirectEntries(inodes0, blocks0, f.refs, i);
        ok := FreeIndirect(ind, blocks[ind], i, f, old(logged));
        inodes := inodes[i := inodes[i].(addrs := inodes[i].addrs[NDIRECT := 0])];
      } else {
        NoIndirectEntries(inodes0, blocks0, f.refs, i);
      }
    }

    /** itrunc: frees exactly the blocks of inode i, and empties it.  It never frees a free block, so
    the panic of bfree cannot happen. */
    method Itrunc(i: nat) returns (ok: bool)
      requires Valid() && i < |inodes|
      modifies this
      ensures ok && Valid() && |inodes| == |old(inodes)| && File(i) == []
      ensures used == old(used) - BlocksOf(old(Abs()), i) && BlocksOf(old(Abs()), i) <= old(used)
      ensures logged == old(logged) + BitmapBlocks(sb.bmapstart, BlocksOf(old(Abs()), i)) + {IBlock(sb, i)}
      ensures Covered(old(blocks), old(logged), blocks, logged) && (old(Tidy()) ==> Tidy())
      ensures forall j :: 0 <= j < |inodes| && j != i ==> File(j) == old(File(j)) && inodes[j] == old(inodes[j])
    {
      ghost var f, inodes0, blocks0 := Abs(), inodes, blocks;
      if Tidy() {
        TruncateLosesNone(f, sb.datastart, i);
      }
      ok := FreeBlocks(i, f);
      inodes := inodes[i := inodes[i].(size := 0)];
      logged := logged + {IBlock(sb, i)};
      refs := map x | x in refs && x.ino != i :: refs[x];
      TruncateKeeps(f, sb.datastart, i);
      TruncateResult(f, sb.datastart, i, blocks);
      TruncateDecodes(inodes0, blocks0, inodes, blocks, f.refs, i, sb.datastart);
      assert Sizes(inodes) == f.sizes[i := 0];
    }
  }
}
