/** The on-disk side of the write-ahead log: what commit and recovery write, block by
block, and what a crash between any two of those writes leaves behind.

The log occupies blocks start .. start+size-1: a header block, then one block per
logged home block.  Every other block of the disk is a home block. */
module RedoLog {
  import opened Blocks

  const LOGSIZE := MAXOPBLOCKS * 3

  datatype Geometry = Geometry(start: nat, size: nat)

  predicate IsHome(g: Geometry, b: nat) {
    b < g.start || g.start + g.size <= b
  }

  ghost predicate Fits(g: Geometry, d: Disk) {
    1 <= g.size && g.start + g.size <= |d| <= WORD_LIMIT
  }

  /** A list of block numbers the log can hold: they fit the header and the log area, and
  all of them are home blocks of the disk. */
  ghost predicate Loggable(g: Geometry, d: Disk, blocks: seq<nat>) {
    && |blocks| <= LOGSIZE && |blocks| < g.size
    && forall i :: 0 <= i < |blocks| ==> blocks[i] < |d| && IsHome(g, blocks[i])
  }

  // ---- the header block ----

  /** The block list stored in a header block: word 0 is the count n, words 1..n the numbers. */
  function HeadBlocks(v: Block): seq<nat>
    requires Word(v, 0) <= LOGSIZE
  {
    seq(Word(v, 0), i requires 0 <= i < Word(v, 0) => Word(v, i + 1))
  }

  /** Header block v after its count has been set to the length of blocks, and its first k
  entries have been stored; the words behind them keep their old value. */
  function StoreHead(v: Block, blocks: seq<nat>, k: nat): Block
    requires k <= |blocks| <= LOGSIZE
    requires forall i :: 0 <= i < |blocks| ==> blocks[i] < WORD_LIMIT
  {
    if k == 0 then SetWord(v, 0, |blocks|)
    else SetWord(StoreHead(v, blocks, k - 1), k, blocks[k - 1])
  }

  lemma {:induction false} StoreHeadWord(v: Block, blocks: seq<nat>, k: nat, j: nat)
    requires k <= |blocks| <= LOGSIZE && j < WORDS
    requires forall i :: 0 <= i < |blocks| ==> blocks[i] < WORD_LIMIT
    ensures Word(StoreHead(v, blocks, k), j) ==
            if j == 0 then |blocks| else if j <= k then blocks[j - 1] else Word(v, j)
  {
    if k == 0 {
      WordOfSetWord(v, 0, |blocks|, j);
    } else {
      StoreHeadWord(v, blocks, k - 1, j);
      WordOfSetWord(StoreHead(v, blocks, k - 1), k, blocks[k - 1], j);
    }
  }

  /** Writing a header and reading it back gives the same list, whatever stale words the
  header block held. */
  lemma HeadRoundTrip(v: Block, blocks: seq<nat>)
    requires |blocks| <= LOGSIZE
    requires forall i :: 0 <= i < |blocks| ==> blocks[i] < WORD_LIMIT
    ensures Word(StoreHead(v, blocks, |blocks|), 0) == |blocks|
    ensures HeadBlocks(StoreHead(v, blocks, |blocks|)) == blocks
  {
    var h := StoreHead(v, blocks, |blocks|);
    StoreHeadWord(v, blocks, |blocks|, 0);
    forall i | 0 <= i < |blocks|
      ensures Word(h, i + 1) == blocks[i]
    {
      StoreHeadWord(v, blocks, |blocks|, i + 1);
    }
  }

  // ---- recovery ----

  /** A disk whose header names a list the log can hold: the state every crash leaves. */
  ghost predicate Recoverable(g: Geometry, d: Disk) {
    && Fits(g, d)
    && Word(d[g.start], 0) <= LOGSIZE
    && Loggable(g, d, HeadBlocks(d[g.start]))
  }

  ghost function Pending(g: Geometry, d: Disk): seq<nat>
    requires Recoverable(g, d)
  {
    HeadBlocks(d[g.start])
  }

  ghost function ClearedHead(head: Block): Block {
    StoreHead(head, [], 0)
  }

  lemma ClearedHeadIsEmpty(head: Block)
    ensures Word(ClearedHead(head), 0) == 0
  {
    StoreHeadWord(head, [], 0, 0);
  }

  /** The k-th disk write of recover_from_log: install the k-th log block at the home block
  the header names for it; after the last one, clear the header. */
  ghost function RecoverWrite(g: Geometry, d: Disk, k: nat): (w: Write)
    requires Recoverable(g, d) && k <= |Pending(g, d)|
    ensures w.b < |d|
  {
    if k < |Pending(g, d)| then Write(Pending(g, d)[k], d[g.start + 1 + k])
    else Write(g.start, ClearedHead(d[g.start]))
  }

  ghost function RecoverWrites(g: Geometry, d: Disk): (ws: seq<Write>)
    requires Recoverable(g, d)
    ensures InRange(d, ws) && |ws| == |Pending(g, d)| + 1
  {
    seq(|Pending(g, d)| + 1, k requires 0 <= k <= |Pending(g, d)| => RecoverWrite(g, d, k))
  }

  ghost function Recover(g: Geometry, d: Disk): (r: Disk)
    requires Recoverable(g, d)
    ensures |r| == |d|
  {
    Apply(d, RecoverWrites(g, d))
  }

  /** The last position below k at which the list names b, or -1. */
  ghost function LastIndex(blocks: seq<nat>, k: nat, b: nat): (r: int)
    requires k <= |blocks|
    ensures -1 <= r < k
  {
    if k == 0 then -1
    else if blocks[k - 1] == b then k - 1
    else LastIndex(blocks, k - 1, b)
  }

  lemma {:induction false} LastIndexIsLast(blocks: seq<nat>, k: nat, b: nat)
    requires k <= |blocks|
    ensures var r := LastIndex(blocks, k, b);
            && (r >= 0 ==> blocks[r] == b)
            && forall i :: r < i < k ==> blocks[i] != b
  {
    if k > 0 && blocks[k - 1] != b {
      LastIndexIsLast(blocks, k - 1, b);
    }
  }

  lemma LastIndexMonotone(blocks: seq<nat>, k: nat, n: nat, b: nat)
    requires k <= n <= |blocks|
    ensures LastIndex(blocks, k, b) <= LastIndex(blocks, n, b)
  {
    LastIndexIsLast(blocks, k, b);
    LastIndexIsLast(blocks, n, b);
  }

  /** The contents home block b has once the first k log blocks of d are installed. */
  ghost function Installed(g: Geometry, d: Disk, blocks: seq<nat>, k: nat, b: nat): Block
    requires Fits(g, d) && |blocks| < g.size && k <= |blocks| && b < |d|
  {
    var last := LastIndex(blocks, k, b);
    if last >= 0 then d[g.start + 1 + last] else d[b]
  }

  /** The contents home block b has after recovery. */
  ghost function Durable(g: Geometry, d: Disk, b: nat): Block
    requires Recoverable(g, d) && b < |d|
  {
    Installed(g, d, Pending(g, d), |Pending(g, d)|, b)
  }

  /** Disk c holds what d holds after k writes of its recovery. */
  ghost predicate InRecovery(g: Geometry, d: Disk, k: nat, c: Disk)
    requires Recoverable(g, d) && k <= |Pending(g, d)| + 1
  {
    && |c| == |d|
    && c[g.start] == (if k <= |Pending(g, d)| then d[g.start] else ClearedHead(d[g.start]))
    && (forall b :: g.start < b < g.start + g.size ==> c[b] == d[b])
    && forall b {:trigger IsHome(g, b)} :: 0 <= b < |d| && IsHome(g, b) ==>
         c[b] == if k <= |Pending(g, d)| then Installed(g, d, Pending(g, d), k, b) else Durable(g, d, b)
  }

  lemma RecoveryStep(g: Geometry, d: Disk, k: nat, c: Disk)
    requires Recoverable(g, d) && k <= |Pending(g, d)| && InRecovery(g, d, k, c)
    ensures var w := RecoverWrite(g, d, k); InRecovery(g, d, k + 1, c[w.b := w.v])
  {}

  lemma {:induction false} RecoveryPrefix(g: Geometry, d: Disk, k: nat)
    requires Recoverable(g, d) && k <= |RecoverWrites(g, d)|
    ensures InRecovery(g, d, k, Apply(d, RecoverWrites(g, d)[..k]))
  {
    if k > 0 {
      RecoveryPrefix(g, d, k - 1);
      ApplyNext(d, RecoverWrites(g, d), k - 1);
      RecoveryStep(g, d, k - 1, Apply(d, RecoverWrites(g, d)[..k - 1]));
    }
  }

  /** A completed recovery gives every home block its durable contents and leaves an empty
  log. */
  lemma RecoverResult(g: Geometry, d: Disk)
    requires Recoverable(g, d)
    ensures forall b {:trigger IsHome(g, b)} :: 0 <= b < |d| && IsHome(g, b) ==> Recover(g, d)[b] == Durable(g, d, b)
    ensures Recoverable(g, Recover(g, d)) && Pending(g, Recover(g, d)) == []
  {
    var ws := RecoverWrites(g, d);
    assert ws[..|ws|] == ws;
    RecoveryPrefix(g, d, |ws|);
    ClearedHeadIsEmpty(d[g.start]);
  }

  lemma InRecoveryKeepsDurable(g: Geometry, d: Disk, k: nat, c: Disk, b: nat)
    requires Recoverable(g, d) && k <= |Pending(g, d)| + 1 && InRecovery(g, d, k, c)
    requires b < |d| && IsHome(g, b)
    ensures Recoverable(g, c) && Durable(g, c, b) == Durable(g, d, b)
  {
    if k <= |Pending(g, d)| {
      LastIndexMonotone(Pending(g, d), k, |Pending(g, d)|, b);
    } else {
      ClearedHeadIsEmpty(d[g.start]);
    }
  }

  /** Crashing after any k writes of a recovery and recovering again ends with the same home
  blocks as the recovery that was not interrupted. */
  lemma RecoveryIsRestartable(g: Geometry, d: Disk, k: nat)
    requires Recoverable(g, d) && k <= |RecoverWrites(g, d)|
    ensures var c := Apply(d, RecoverWrites(g, d)[..k]);
            && Recoverable(g, c)
            && forall b {:trigger IsHome(g, b)} :: 0 <= b < |d| && IsHome(g, b) ==> Recover(g, c)[b] == Recover(g, d)[b]
  {
    var c := Apply(d, RecoverWrites(g, d)[..k]);
    RecoveryPrefix(g, d, k);
    forall b: nat | b < |d| && IsHome(g, b)
      ensures Recoverable(g, c) && Durable(g, c, b) == Durable(g, d, b)
    {
      InRecoveryKeepsDurable(g, d, k, c, b);
    }
    RecoverResult(g, c);
    RecoverResult(g, d);
  }

  /** The disk after a series of interrupted recoveries: the i-th one is cut off after
  crashes[i] of its writes (or runs to its end if it has fewer). */
  ghost function CrashingRecoveries(g: Geometry, d: Disk, crashes: seq<nat>): (r: Disk)
    requires Recoverable(g, d)
    ensures |r| == |d| && Recoverable(g, r)
    decreases |crashes|
  {
    if crashes == [] then d
    else
      var ws := RecoverWrites(g, d);
      var k := if crashes[0] <= |ws| then crashes[0] else |ws|;
      RecoveryIsRestartable(g, d, k);
      CrashingRecoveries(g, Apply(d, ws[..k]), crashes[1..])
  }

  /** However often recovery itself crashes and at whatever points, the recovery that finally
  completes yields the home blocks of an undisturbed recovery. */
  lemma {:induction false} CrashingRecoveriesAgree(g: Geometry, d: Disk, crashes: seq<nat>, b: nat)
    requires Recoverable(g, d) && b < |d| && IsHome(g, b)
    ensures Recover(g, CrashingRecoveries(g, d, crashes))[b] == Recover(g, d)[b]
    decreases |crashes|
  {
    if crashes != [] {
      var ws := RecoverWrites(g, d);
      var k := if crashes[0] <= |ws| then crashes[0] else |ws|;
      RecoveryIsRestartable(g, d, k);
      CrashingRecoveriesAgree(g, Apply(d, ws[..k]), crashes[1..], b);
    }
  }

  // ---- commit ----

  ghost predicate ReadyToCommit(g: Geometry, d: Disk, view: Disk, lh: seq<nat>) {
    && |view| == |d| && Recoverable(g, d) && Pending(g, d) == []
    && lh != [] && Loggable(g, d, lh)
  }

  ghost function CommitHead(head: Block, lh: seq<nat>): Block
    requires |lh| <= LOGSIZE && forall i :: 0 <= i < |lh| ==> lh[i] < WORD_LIMIT
  {
    StoreHead(head, lh, |lh|)
  }

  /** The k-th disk write of a commit of the blocks lh with current contents view: first the
  log blocks, then the header (the commit point), then the home blocks, then the cleared
  header. */
  ghost function CommitWrite(g: Geometry, d: Disk, view: Disk, lh: seq<nat>, k: nat): (w: Write)
    requires ReadyToCommit(g, d, view, lh) && k < 2 * |lh| + 2
    ensures w.b < |d|
  {
    var n := |lh|;
    if k < n then Write(g.start + 1 + k, view[lh[k]])
    else if k == n then Write(g.start, CommitHead(d[g.start], lh))
    else if k <= 2 * n then Write(lh[k - n - 1], view[lh[k - n - 1]])
    else Write(g.start, ClearedHead(CommitHead(d[g.start], lh)))
  }

  ghost function CommitWrites(g: Geometry, d: Disk, view: Disk, lh: seq<nat>): (ws: seq<Write>)
    requires ReadyToCommit(g, d, view, lh)
    ensures InRange(d, ws) && |ws| == 2 * |lh| + 2
  {
    seq(2 * |lh| + 2, k requires 0 <= k < 2 * |lh| + 2 => CommitWrite(g, d, view, lh, k))
  }

  /** The contents of home block b once the first k logged blocks are in: those have their
  current contents, all others are untouched. */
  ghost function CommittedUpTo(d: Disk, view: Disk, lh: seq<nat>, k: nat, b: nat): Block
    requires b < |d| == |view| && k <= |lh|
  {
    if LastIndex(lh, k, b) >= 0 then view[b] else d[b]
  }

  /** The contents of home block b once the whole transaction is in. */
  ghost function Committed(d: Disk, view: Disk, lh: seq<nat>, b: nat): (v: Block)
    requires b < |d| == |view|
    ensures v == if b in lh then view[b] else d[b]
  {
    LastIndexIsLast(lh, |lh|, b);
    CommittedUpTo(d, view, lh, |lh|, b)
  }

  ghost function HeadAt(g: Geometry, d: Disk, lh: seq<nat>, k: nat): Block
    requires Fits(g, d) && Loggable(g, d, lh)
  {
    if k <= |lh| then d[g.start]
    else if k <= 2 * |lh| + 1 then CommitHead(d[g.start], lh)
    else ClearedHead(CommitHead(d[g.start], lh))
  }

  /** How many home blocks the first k writes of a commit of n blocks have updated. */
  ghost function HomesDone(n: nat, k: nat): nat {
    if k <= n + 1 then 0 else if k <= 2 * n + 1 then k - n - 1 else n
  }

  /** Disk c holds what d holds after k writes of the commit. */
  ghost predicate InCommit(g: Geometry, d: Disk, view: Disk, lh: seq<nat>, k: nat, c: Disk)
    requires ReadyToCommit(g, d, view, lh)
  {
    && InCommitBody(g, d, view, lh, k, c)
    && c[g.start] == HeadAt(g, d, lh, k)
  }

  /** The same for all blocks but the header. */
  ghost predicate InCommitBody(g: Geometry, d: Disk, view: Disk, lh: seq<nat>, k: nat, c: Disk)
    requires Fits(g, d) && |view| == |d| && Loggable(g, d, lh)
  {
    && |c| == |d|
    && (forall i :: 0 <= i < |lh| && i < k ==> c[g.start + 1 + i] == view[lh[i]])
    && forall b {:trigger IsHome(g, b)} :: 0 <= b < |d| && IsHome(g, b) ==>
           c[b] == CommittedUpTo(d, view, lh, HomesDone(|lh|, k), b)
  }

  lemma CommitStep(g: Geometry, d: Disk, view: Disk, lh: seq<nat>, k: nat, c: Disk)
    requires ReadyToCommit(g, d, view, lh) && k < 2 * |lh| + 2 && InCommit(g, d, view, lh, k, c)
    ensures var w := CommitWrite(g, d, view, lh, k); InCommit(g, d, view, lh, k + 1, c[w.b := w.v])
  {}

  lemma {:induction false} CommitPrefix(g: Geometry, d: Disk, view: Disk, lh: seq<nat>, k: nat)
    requires ReadyToCommit(g, d, view, lh) && k <= 2 * |lh| + 2
    ensures InCommit(g, d, view, lh, k, Apply(d, CommitWrites(g, d, view, lh)[..k]))
  {
    var ws := CommitWrites(g, d, view, lh);
    if k > 0 {
      CommitPrefix(g, d, view, lh, k - 1);
      ApplyNext(d, ws, k - 1);
      CommitStep(g, d, view, lh, k - 1, Apply(d, ws[..k - 1]));
    }
  }

  /** The header of a disk in the middle of a commit. */
  lemma InCommitPending(g: Geometry, d: Disk, view: Disk, lh: seq<nat>, k: nat, c: Disk)
    requires ReadyToCommit(g, d, view, lh) && k <= 2 * |lh| + 2 && InCommit(g, d, view, lh, k, c)
    ensures Recoverable(g, c)
    ensures Pending(g, c) == if |lh| < k <= 2 * |lh| + 1 then lh else []
  {
    HeadRoundTrip(d[g.start], lh);
    ClearedHeadIsEmpty(CommitHead(d[g.start], lh));
  }

  /** With the header of lh on disk and its log blocks in place, the durable contents of b are the committed ones. */
  lemma LoggedDurable(g: Geometry, d: Disk, view: Disk, lh: seq<nat>, homes: nat, c: Disk, b: nat)
    requires |c| == |d| == |view| && Recoverable(g, c) && Pending(g, c) == lh && b < |d| && homes <= |lh|
    requires c[b] == CommittedUpTo(d, view, lh, homes, b)
    requires LastIndex(lh, |lh|, b) >= 0 ==> c[g.start + 1 + LastIndex(lh, |lh|, b)] == view[b]
    ensures Durable(g, c, b) == Committed(d, view, lh, b)
  {
    LastIndexMonotone(lh, homes, |lh|, b);
  }

  /** The durable contents of b, from the few blocks of the disk that determine them. */
  lemma MidCommitDurable(g: Geometry, d: Disk, view: Disk, lh: seq<nat>, k: nat, c: Disk, b: nat)
    requires |c| == |d| == |view| && Recoverable(g, c) && b < |d|
    requires Pending(g, c) == if |lh| < k <= 2 * |lh| + 1 then lh else []
    requires c[b] == CommittedUpTo(d, view, lh, HomesDone(|lh|, k), b)
    requires |lh| < k <= 2 * |lh| + 1 && LastIndex(lh, |lh|, b) >= 0 ==>
               c[g.start + 1 + LastIndex(lh, |lh|, b)] == view[b]
    ensures Durable(g, c, b) == if k <= |lh| then d[b] else Committed(d, view, lh, b)
  {
    if |lh| < k <= 2 * |lh| + 1 {
      LoggedDurable(g, d, view, lh, HomesDone(|lh|, k), c, b);
    } else {
      assert Durable(g, c, b) == c[b];
    }
  }

  lemma InCommitDurable(g: Geometry, d: Disk, view: Disk, lh: seq<nat>, k: nat, c: Disk, b: nat)
    requires Fits(g, d) && |view| == |d| && Loggable(g, d, lh) && InCommitBody(g, d, view, lh, k, c)
    requires Recoverable(g, c) && Pending(g, c) == if |lh| < k <= 2 * |lh| + 1 then lh else []
    requires b < |d| && IsHome(g, b)
    ensures Durable(g, c, b) == if k <= |lh| then d[b] else Committed(d, view, lh, b)
  {
    BodyHolds(g, d, view, lh, k, c, b);
    MidCommitDurable(g, d, view, lh, k, c, b);
  }

  lemma BodyHolds(g: Geometry, d: Disk, view: Disk, lh: seq<nat>, k: nat, c: Disk, b: nat)
    requires Fits(g, d) && |view| == |d| && Loggable(g, d, lh) && InCommitBody(g, d, view, lh, k, c)
    requires b < |d| && IsHome(g, b)
    ensures c[b] == CommittedUpTo(d, view, lh, HomesDone(|lh|, k), b)
    ensures |lh| < k && LastIndex(lh, |lh|, b) >= 0 ==> c[g.start + 1 + LastIndex(lh, |lh|, b)] == view[b]
  {
    LastIndexIsLast(lh, |lh|, b);
  }

  /** Crash atomicity: cut a commit off after any k of its disk writes; recovery then yields
  the old home blocks if the header had not been written, and exactly the new ones if it
  had. */
  lemma CommitIsAtomic(g: Geometry, d: Disk, view: Disk, lh: seq<nat>, k: nat)
    requires ReadyToCommit(g, d, view, lh) && k <= 2 * |lh| + 2
    ensures var c := Apply(d, CommitWrites(g, d, view, lh)[..k]);
            && Recoverable(g, c)
            && forall b {:trigger IsHome(g, b)} :: 0 <= b < |d| && IsHome(g, b) ==>
                 Recover(g, c)[b] == if k <= |lh| then d[b] else Committed(d, view, lh, b)
  {
    var c := Apply(d, CommitWrites(g, d, view, lh)[..k]);
    CommitPrefix(g, d, view, lh, k);
    InCommitPending(g, d, view, lh, k, c);
    forall b: nat | b < |d| && IsHome(g, b)
      ensures Durable(g, c, b) == if k <= |lh| then d[b] else Committed(d, view, lh, b)
    {
      InCommitDurable(g, d, view, lh, k, c, b);
    }
    RecoverResult(g, c);
  }

  // ---- the write sequences of the individual loops ----

  /** write_log copies the current contents of each logged block into the log area. */
  ghost function LogWrites(g: Geometry, view: Disk, lh: seq<nat>): (ws: seq<Write>)
    requires Fits(g, view) && Loggable(g, view, lh)
    ensures |ws| == |lh| && InRange(view, ws)
  {
    seq(|lh|, i requires 0 <= i < |lh| => Write(g.start + 1 + i, view[lh[i]]))
  }

  /** install_trans copies each log block to the home block the list names for it. */
  ghost function InstallWrites(g: Geometry, d: Disk, lh: seq<nat>): (ws: seq<Write>)
    requires Fits(g, d) && Loggable(g, d, lh)
    ensures |ws| == |lh| && InRange(d, ws)
  {
    seq(|lh|, i requires 0 <= i < |lh| => Write(lh[i], d[g.start + 1 + i]))
  }

  /** Installing does not touch the log area. */
  lemma InstallKeepsLog(g: Geometry, d: Disk, lh: seq<nat>, k: nat, i: nat)
    requires Fits(g, d) && Loggable(g, d, lh) && k <= |lh| && i < g.size
    ensures InRange(d, InstallWrites(g, d, lh)[..k])
    ensures Apply(d, InstallWrites(g, d, lh)[..k])[g.start + i] == d[g.start + i]
  {
    var ws := InstallWrites(g, d, lh)[..k];
    forall j | 0 <= j < |ws|
      ensures ws[j].b < |d| && ws[j].b != g.start + i
    {
      assert ws[j].b == lh[j] && IsHome(g, lh[j]);
    }
    ApplyUntouched(d, ws, g.start + i);
  }

  lemma RecoverWritesParts(g: Geometry, d: Disk)
    requires Recoverable(g, d)
    ensures RecoverWrites(g, d) ==
            InstallWrites(g, d, Pending(g, d)) + [Write(g.start, ClearedHead(d[g.start]))]
  {}

  lemma LoggedDisk(g: Geometry, d: Disk, view: Disk, lh: seq<nat>)
    requires ReadyToCommit(g, d, view, lh)
    ensures var c := Apply(d, LogWrites(g, view, lh));
            c[g.start] == d[g.start] && forall i :: 0 <= i < |lh| ==> c[g.start + 1 + i] == view[lh[i]]
  {
    assert CommitWrites(g, d, view, lh)[..|lh|] == LogWrites(g, view, lh);
    CommitPrefix(g, d, view, lh, |lh|);
  }

  lemma FourParts<T>(ws: seq<T>, n: nat, a: seq<T>, x: T, c: seq<T>, y: T)
    requires |ws| == 2 * n + 2 && ws[..n] == a && ws[n] == x && ws[n + 1..2 * n + 1] == c && ws[2 * n + 1] == y
    ensures ws == a + [x] + c + [y]
  {}

  lemma InstallPart(g: Geometry, d: Disk, view: Disk, lh: seq<nat>, c: Disk)
    requires ReadyToCommit(g, d, view, lh) && |c| == |d| && Fits(g, c) && Loggable(g, c, lh)
    requires forall i :: 0 <= i < |lh| ==> c[g.start + 1 + i] == view[lh[i]]
    ensures CommitWrites(g, d, view, lh)[|lh| + 1..2 * |lh| + 1] == InstallWrites(g, c, lh)
  {
    var ws, n := CommitWrites(g, d, view, lh), |lh|;
    forall i | 0 <= i < n
      ensures ws[n + 1..2 * n + 1][i] == InstallWrites(g, c, lh)[i]
    {
      assert ws[n + 1..2 * n + 1][i] == ws[n + 1 + i];
    }
  }

  /** A commit is write_log, write_head, install_trans and write_head again, where install_trans
  finds in the log what write_log put there. */
  lemma CommitWritesParts(g: Geometry, d: Disk, view: Disk, lh: seq<nat>)
    requires ReadyToCommit(g, d, view, lh)
    ensures var logged := LogWrites(g, view, lh);
            var head := CommitHead(d[g.start], lh);
            var c := Apply(d, logged)[g.start := head];
            && Apply(d, logged)[g.start] == d[g.start]
            && CommitWrites(g, d, view, lh) ==
               logged + [Write(g.start, head)] + InstallWrites(g, c, lh) + [Write(g.start, ClearedHead(head))]
  {
    var ws, logged, n := CommitWrites(g, d, view, lh), LogWrites(g, view, lh), |lh|;
    var head := CommitHead(d[g.start], lh);
    LoggedDisk(g, d, view, lh);
    var c := Apply(d, logged)[g.start := head];
    assert ws[..n] == logged;
    InstallPart(g, d, view, lh, c);
    FourParts(ws, n, logged, Write(g.start, head), InstallWrites(g, c, lh), Write(g.start, ClearedHead(head)));
  }

  lemma CommitHistory(pre: seq<Write>, g: Geometry, d: Disk, view: Disk, lh: seq<nat>)
    requires ReadyToCommit(g, d, view, lh)
    ensures var logged := LogWrites(g, view, lh);
            var head := CommitHead(d[g.start], lh);
            var c := Apply(d, logged)[g.start := head];
            pre + logged + [Write(g.start, head)] + InstallWrites(g, c, lh) + [Write(g.start, ClearedHead(head))]
            == pre + CommitWrites(g, d, view, lh)
  {
    CommitWritesParts(g, d, view, lh);
  }

  /** The same decomposition for the disk a commit leaves behind. */
  lemma CommitApplied(g: Geometry, d: Disk, view: Disk, lh: seq<nat>)
    requires ReadyToCommit(g, d, view, lh)
    ensures var logged := LogWrites(g, view, lh);
            var head := CommitHead(d[g.start], lh);
            var c := Apply(d, logged)[g.start := head];
            Apply(d, CommitWrites(g, d, view, lh)) == Apply(c, InstallWrites(g, c, lh))[g.start := ClearedHead(head)]
  {
    var logged := LogWrites(g, view, lh);
    var w := Write(g.start, CommitHead(d[g.start], lh));
    var c := Apply(d, logged)[w.b := w.v];
    var installs := InstallWrites(g, c, lh);
    var z := Write(g.start, ClearedHead(w.v));
    CommitWritesParts(g, d, view, lh);
    ApplyAppend(d, logged, w);
    ApplyConcat(d, logged + [w], installs);
    ApplyAppend(d, logged + [w] + installs, z);
  }

  /** A commit depends on the current contents of the logged blocks only. */
  lemma CommitWritesLocal(g: Geometry, d: Disk, view: Disk, view': Disk, lh: seq<nat>)
    requires ReadyToCommit(g, d, view, lh) && |view'| == |view|
    requires forall i :: 0 <= i < |lh| ==> view'[lh[i]] == view[lh[i]]
    ensures CommitWrites(g, d, view, lh) == CommitWrites(g, d, view', lh)
  {
    forall k | 0 <= k < 2 * |lh| + 2
      ensures CommitWrite(g, d, view, lh, k) == CommitWrite(g, d, view', lh, k)
    {}
  }

  lemma CommitResult(g: Geometry, d: Disk, view: Disk, lh: seq<nat>, b: nat)
    requires ReadyToCommit(g, d, view, lh) && b < |d| && IsHome(g, b)
    ensures var c := Apply(d, CommitWrites(g, d, view, lh));
            Recoverable(g, c) && Pending(g, c) == [] && c[b] == Committed(d, view, lh, b)
  {
    var ws := CommitWrites(g, d, view, lh);
    assert ws[..|ws|] == ws;
    CommitPrefix(g, d, view, lh, |ws|);
    InCommitPending(g, d, view, lh, |ws|, Apply(d, ws));
  }
}