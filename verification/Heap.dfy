/** umalloc.c: the memory allocator of user programs.  Free blocks are linked in a circle in address
order, through a header in front of each block; freed blocks are joined with their neighbours. */
module Heap {

  const UNIT := 8             // sizeof(Header)

  /** The state behind the list.  order: the circle of free blocks, from the empty block `base` on; size: the
  size fields of the headers, in units; live: the blocks handed out; blocks: all blocks but base; owner:
  the block each byte of the heap belongs to. */
  datatype View = View(order: seq<nat>, size: map<nat, nat>, live: set<nat>, blocks: set<nat>, owner: map<nat, nat>)

  /** The circle is in address order, and holds base and exactly the blocks that are not live. */
  ghost predicate Listed(v: View) {
    && |v.order| > 0 && v.order[0] !in v.blocks
    && Sorted(v.order)
    && (forall a {:trigger a in v.order} :: a in v.order && a != v.order[0] ==> a in v.blocks && a !in v.live)
    && (forall a {:trigger a in v.live} :: a in v.live ==> a in v.blocks)
    && (forall a {:trigger a in v.blocks} :: a in v.blocks ==> a in v.live || a in v.order)
  }

  ghost predicate Sorted(order: seq<nat>) {
    forall i, j :: 0 <= i < j < |order| ==> order[i] < order[j]
  }

  /** Every block owns its bytes, and every byte of the heap belongs to a block: blocks are pairwise
  disjoint, and nothing is lost. */
  ghost predicate Tiled(size: map<nat, nat>, blocks: set<nat>, owner: map<nat, nat>) {
    Sized(size, blocks) && Owning(size, blocks, owner) && Belonging(size, blocks, owner)
  }

  ghost predicate Sized(size: map<nat, nat>, blocks: set<nat>) {
    forall a {:trigger a in blocks} :: a in blocks ==> a in size && size[a] >= 1
  }

  ghost predicate Owning(size: map<nat, nat>, blocks: set<nat>, owner: map<nat, nat>)
    requires Sized(size, blocks)
  {
    forall a, u {:trigger a in blocks, u in owner} :: a in blocks && a <= u < a + UNIT * size[a] ==>
        u in owner && owner[u] == a
  }

  ghost predicate Belonging(size: map<nat, nat>, blocks: set<nat>, owner: map<nat, nat>)
    requires Sized(size, blocks)
  {
    forall u {:trigger owner[u]} :: u in owner ==>
      owner[u] in blocks && owner[u] <= u < owner[u] + UNIT * size[owner[u]]
  }

  /** Free block i ends before the next one starts, or right there if lo <= i < hi. */
  ghost predicate Gap(v: View, i: nat, lo: int, hi: int)
    requires i < |v.order| - 1
  {
    && v.order[i] in v.size
    && var end := v.order[i] + UNIT * v.size[v.order[i]];
       end <= v.order[i + 1] && (i < lo || i >= hi ==> end < v.order[i + 1])
  }

  /** Base is empty and lies below the heap; free blocks do not touch each other, except perhaps those at the
  positions lo to hi and their successors. */
  ghost predicate Apart(v: View, lo: int, hi: int) {
    && |v.order| > 0 && v.order[0] in v.size && v.size[v.order[0]] == 0
    && (forall u {:trigger u in v.owner} :: u in v.owner ==> v.order[0] < u)
    && forall i {:trigger Gap(v, i, lo, hi)} :: 0 <= i < |v.order| - 1 ==> Gap(v, i, lo, hi)
  }

  ghost predicate Inv(v: View) {
    Listed(v) && Tiled(v.size, v.blocks, v.owner) && Apart(v, 0, 0)
  }

  /** A block ends before the next one starts. */
  lemma Disjoint(v: View, a: nat, b: nat)
    requires Tiled(v.size, v.blocks, v.owner) && a in v.blocks && b in v.blocks && a < b
    ensures a + UNIT * v.size[a] <= b
  {
    assert b in v.owner && v.owner[b] == b;
  }

  // ---- giving a block back ----

  /** bp lies behind the k-th free block and before the next. */
  ghost predicate Between(order: seq<nat>, k: nat, bp: nat) {
    k < |order| && order[k] < bp && (k + 1 < |order| ==> bp < order[k + 1])
  }

  ghost function InsertAt(order: seq<nat>, k: nat, bp: nat): (r: seq<nat>)
    requires k < |order|
    ensures |r| == |order| + 1
    ensures forall i {:trigger r[i]} :: 0 <= i < |r| ==>
              r[i] == if i <= k then order[i] else if i == k + 1 then bp else order[i - 1]
  {
    order[..k + 1] + [bp] + order[k + 1..]
  }

  /** The live block bp becomes the free block behind the k-th. */
  ghost function Insert(v: View, k: nat, bp: nat): View
    requires k < |v.order|
  {
    v.(order := InsertAt(v.order, k, bp), live := v.live - {bp})
  }

  lemma InsertSorted(order: seq<nat>, k: nat, bp: nat)
    requires Sorted(order) && Between(order, k, bp)
    ensures Sorted(InsertAt(order, k, bp))
  {}

  lemma InsertMembers(order: seq<nat>, k: nat, bp: nat)
    requires k < |order|
    ensures forall a {:trigger a in InsertAt(order, k, bp)} {:trigger a in order} ::
              a in InsertAt(order, k, bp) <==> a in order || a == bp
  {
    var r := InsertAt(order, k, bp);
    assert r[k + 1] == bp;
    forall i | 0 <= i < |order|
      ensures order[i] in r
    {
      assert r[if i <= k then i else i + 1] == order[i];
    }
  }

  lemma InsertListed(v: View, k: nat, bp: nat)
    requires Listed(v) && Between(v.order, k, bp) && bp in v.live
    ensures Listed(Insert(v, k, bp))
  {
    InsertSorted(v.order, k, bp);
    InsertMembers(v.order, k, bp);
    assert Insert(v, k, bp).order[0] == v.order[0];
  }

  lemma InsertApart(v: View, k: nat, bp: nat)
    requires Inv(v) && Between(v.order, k, bp) && bp in v.live
    ensures Apart(Insert(v, k, bp), k, k + 2)
  {
    var t := Insert(v, k, bp);
    assert t.order[0] == v.order[0];
    if k > 0 {
      assert v.order[k] in v.order;
      Disjoint(v, v.order[k], bp);
    }
    if k + 1 < |v.order| {
      assert v.order[k + 1] in v.order;
      Disjoint(v, bp, v.order[k + 1]);
    }
    var hi := k + 2;
    forall i | 0 <= i < |t.order| - 1
      ensures Gap(t, i, k, hi)
    {
      if i < k {
        assert Gap(v, i, 0, 0);
      } else if i > k + 1 {
        assert Gap(v, i - 1, 0, 0);
      }
    }
  }

  ghost function RemoveAt(order: seq<nat>, k: nat): (r: seq<nat>)
    requires k < |order|
    ensures |r| == |order| - 1
    ensures forall i {:trigger r[i]} :: 0 <= i < |r| ==> r[i] == if i < k then order[i] else order[i + 1]
  {
    order[..k] + order[k + 1..]
  }

  lemma RemoveMembers(order: seq<nat>, k: nat)
    requires Sorted(order) && k < |order|
    ensures Sorted(RemoveAt(order, k))
    ensures forall a {:trigger a in RemoveAt(order, k)} {:trigger a in order} ::
              a in RemoveAt(order, k) <==> a in order && a != order[k]
  {
    var r := RemoveAt(order, k);
    forall i | 0 <= i < |order| && i != k
      ensures order[i] in r
    {
      assert r[if i < k then i else i - 1] == order[i];
    }
  }

  /** The bytes of block b now belong to block a. */
  ghost function Reown(owner: map<nat, nat>, b: nat, a: nat): (r: map<nat, nat>)
    ensures forall u {:trigger u in r} :: u in r <==> u in owner
    ensures forall u {:trigger r[u]} :: u in owner ==> r[u] == if owner[u] == b then a else owner[u]
  {
    map u | u in owner :: if owner[u] == b then a else owner[u]
  }

  /** The block at position k + 1 is joined to the one at position k, which it touches. */
  ghost function Join(v: View, k: nat): View
    requires k + 1 < |v.order| && v.order[k] in v.size && v.order[k + 1] in v.size
  {
    var a, b := v.order[k], v.order[k + 1];
    View(RemoveAt(v.order, k + 1), v.size[a := v.size[a] + v.size[b]], v.live, v.blocks - {b}, Reown(v.owner, b, a))
  }

  lemma JoinOwning(size: map<nat, nat>, blocks: set<nat>, owner: map<nat, nat>, a: nat, b: nat, t: View)
    requires Tiled(size, blocks, owner) && a in blocks && b in blocks && a + UNIT * size[a] == b
    requires t.size == size[a := size[a] + size[b]] && t.blocks == blocks - {b} && t.owner == Reown(owner, b, a)
    ensures Sized(t.size, t.blocks) && Owning(t.size, t.blocks, t.owner)
  {
    forall c, u | c in t.blocks && c <= u < c + UNIT * t.size[c]
      ensures u in t.owner && t.owner[u] == c
    {
      if c == a && u >= b {
        assert u in owner && owner[u] == b;
      } else {
        assert u in owner && owner[u] == c;
      }
    }
  }

  lemma JoinBelonging(size: map<nat, nat>, blocks: set<nat>, owner: map<nat, nat>, a: nat, b: nat, t: View)
    requires Tiled(size, blocks, owner) && a in blocks && b in blocks && a + UNIT * size[a] == b
    requires t.size == size[a := size[a] + size[b]] && t.blocks == blocks - {b} && t.owner == Reown(owner, b, a)
    requires Sized(t.size, t.blocks)
    ensures Belonging(t.size, t.blocks, t.owner)
  {
    assert t.size[a] == size[a] + size[b];
    forall u | u in t.owner
      ensures t.owner[u] in t.blocks && t.owner[u] <= u < t.owner[u] + UNIT * t.size[t.owner[u]]
    {
      var c := owner[u];
      assert c in blocks && c <= u < c + UNIT * size[c];
      if c == a || c == b {
        assert t.owner[u] == a;
      } else {
        assert t.owner[u] == c && t.size[c] == size[c];
      }
    }
  }

  lemma JoinListed(v: View, k: nat)
    requires Listed(v) && 1 <= k && k + 1 < |v.order| && v.order[k] in v.size && v.order[k + 1] in v.size
    ensures Listed(Join(v, k))
  {
    RemoveMembers(v.order, k + 1);
    assert Join(v, k).order[0] == v.order[0];
    assert v.order[k + 1] in v.order;
  }

  lemma JoinApart(v: View, k: nat, lo: int, hi: int)
    requires Apart(v, lo, hi) && lo <= k < hi && k + 1 < |v.order| && v.order[0] != v.order[k]
    requires v.order[k] in v.size && v.order[k + 1] in v.size
    requires v.order[k] + UNIT * v.size[v.order[k]] == v.order[k + 1]
    requires Sorted(v.order)
    ensures Apart(Join(v, k), lo, hi - 1)
  {
    var t := Join(v, k);
    var hi' := hi - 1;
    forall i | 0 <= i < |t.order| - 1
      ensures Gap(t, i, lo, hi')
    {
      assert Gap(v, i, lo, hi) && Gap(v, i + 1, lo, hi);
    }
  }

  /** The invariant with blocks that may still touch. */
  ghost predicate Loose(v: View, lo: int, hi: int) {
    Listed(v) && Tiled(v.size, v.blocks, v.owner) && Apart(v, lo, hi)
  }

  /** Free block k ends where the next one starts. */
  ghost predicate Touches(v: View, k: nat) {
    k + 1 < |v.order| && v.order[k] in v.size && v.order[k] + UNIT * v.size[v.order[k]] == v.order[k + 1]
  }

  lemma JoinKeeps(v: View, k: nat, lo: int, hi: int)
    requires Loose(v, lo, hi) && lo <= k < hi && 1 <= k && Touches(v, k) && v.order[k + 1] in v.size
    ensures Loose(Join(v, k), lo, hi - 1)
  {
    assert v.order[k] in v.order && v.order[k + 1] in v.order;
    JoinListed(v, k);
    JoinOwning(v.size, v.blocks, v.owner, v.order[k], v.order[k + 1], Join(v, k));
    JoinBelonging(v.size, v.blocks, v.owner, v.order[k], v.order[k + 1], Join(v, k));
    JoinApart(v, k, lo, hi);
  }

  /** Block k joined with its successor if they touch. */
  ghost function Joined(v: View, k: nat): View {
    if Touches(v, k) && v.order[k + 1] in v.size then Join(v, k) else v
  }

  /** The heap consists of the same bytes. */
  ghost predicate SameBytes(v: View, t: View) {
    forall u {:trigger u in v.owner} {:trigger u in t.owner} :: u in t.owner <==> u in v.owner
  }

  /** What a program can see of the heap: its blocks and their sizes. */
  ghost predicate SameLive(v: View, t: View) {
    t.live == v.live && SameBytes(v, t) && |t.order| > 0 && |v.order| > 0 && t.order[0] == v.order[0]
    && forall a {:trigger a in v.live} :: a in v.live && a in v.size ==> a in t.size && t.size[a] == v.size[a]
  }

  lemma JoinSame(v: View, k: nat)
    requires Listed(v) && k >= 1 && Touches(v, k) && v.order[k + 1] in v.size
    ensures SameLive(v, Join(v, k))
  {
    assert v.order[k] in v.order;
  }

  lemma JoinedKeeps(v: View, k: nat, lo: int)
    requires Loose(v, lo, k + 1) && lo <= k && (k == 0 ==> !Touches(v, k))
    ensures Loose(Joined(v, k), lo, k)
  {
    if Touches(v, k) {
      assert v.order[k + 1] in v.order;
      JoinKeeps(v, k, lo, k + 1);
    } else {
      NotTouching(v, k, lo);
    }
  }

  lemma JoinedSame(v: View, k: nat)
    requires Listed(v) && (k == 0 ==> !Touches(v, k))
    ensures SameLive(v, Joined(v, k))
  {
    if Touches(v, k) && v.order[k + 1] in v.size {
      JoinSame(v, k);
    }
  }

  lemma NotTouching(v: View, k: nat, lo: int)
    requires Apart(v, lo, k + 1) && !Touches(v, k)
    ensures Apart(v, lo, k)
  {
    forall i | 0 <= i < |v.order| - 1
      ensures Gap(v, i, lo, k)
    {
      assert Gap(v, i, lo, k + 1);
    }
  }

  lemma StrictlyApart(v: View, k: int)
    requires Apart(v, k, k)
    ensures Apart(v, 0, 0)
  {
    forall i | 0 <= i < |v.order| - 1
      ensures Gap(v, i, 0, 0)
    {
      assert Gap(v, i, k, k);
    }
  }

  lemma SameLiveTrans(v: View, t: View, w: View)
    requires SameLive(v, t) && SameLive(t, w) && forall a :: a in v.live ==> a in v.size
    ensures SameLive(v, w)
  {
    forall a | a in v.live
      ensures a in w.size && w.size[a] == v.size[a]
    {
      assert a in t.live;
    }
  }

  /** free: the block joins the list behind the k-th free block and is joined with its neighbours. */
  ghost function Freed(v: View, k: nat, bp: nat): View
    requires k < |v.order|
  {
    Joined(Joined(Insert(v, k, bp), k + 1), k)
  }

  /** free keeps the heap in order, takes back exactly the one block, and loses no byte. */
  lemma FreedKeeps(v: View, k: nat, bp: nat)
    requires Inv(v) && Between(v.order, k, bp) && bp in v.live
    ensures Inv(Freed(v, k, bp)) && SameLive(v.(live := v.live - {bp}), Freed(v, k, bp))
  {
    var t := Insert(v, k, bp);
    InsertListed(v, k, bp);
    InsertApart(v, k, bp);
    JoinedKeeps(t, k + 1, k);
    JoinedSame(t, k + 1);
    var t' := Joined(t, k + 1);
    if k == 0 {
      assert t'.order[1] == bp;
    }
    JoinedKeeps(t', k, k);
    JoinedSame(t', k);
    SameLiveTrans(t, t', Freed(v, k, bp));
    StrictlyApart(Freed(v, k, bp), k);
  }

  // ---- handing a block out ----

  /** The whole free block at position k. */
  ghost function TakeWhole(v: View, k: nat): View
    requires k < |v.order|
  {
    v.(order := RemoveAt(v.order, k), live := v.live + {v.order[k]})
  }

  lemma TakeWholeKeeps(v: View, k: nat)
    requires Inv(v) && 1 <= k < |v.order|
    ensures Inv(TakeWhole(v, k)) && SameLive(v.(live := v.live + {v.order[k]}), TakeWhole(v, k))
    ensures v.order[k] !in v.live
  {
    var t := TakeWhole(v, k);
    assert v.order[k] in v.order && t.order[0] == v.order[0];
    RemoveMembers(v.order, k);
    forall i | 0 <= i < |t.order| - 1
      ensures Gap(t, i, 0, 0)
    {
      assert Gap(v, i, 0, 0) && Gap(v, i + 1, 0, 0);
    }
  }

  /** The tail of n units of the free block at position k. */
  ghost function Tail(v: View, k: nat, n: nat): nat
    requires k < |v.order| && v.order[k] in v.size && n <= v.size[v.order[k]]
  {
    v.order[k] + UNIT * (v.size[v.order[k]] - n)
  }

  ghost predicate Within(x: nat, lo: nat, hi: nat) {
    lo <= x < hi
  }

  /** The bytes from lo to hi now belong to block a. */
  ghost function Assign(owner: map<nat, nat>, lo: nat, hi: nat, a: nat): (r: map<nat, nat>)
    ensures forall u {:trigger u in r} :: u in r <==> u in owner || lo <= u < hi
    ensures forall u {:trigger r[u]} :: u in r ==> r[u] == if lo <= u < hi then a else owner[u]
  {
    assert forall u: nat :: lo <= u < hi ==> Within(u, lo, hi);
    map u | u in owner.Keys + (set x: nat | lo <= x < hi && Within(x, lo, hi)) :: if lo <= u < hi then a else owner[u]
  }

  ghost function TakeTail(v: View, k: nat, n: nat): View
    requires k < |v.order| && v.order[k] in v.size && n <= v.size[v.order[k]]
  {
    var p, q := v.order[k], Tail(v, k, n);
    View(v.order, v.size[p := v.size[p] - n][q := n], v.live + {q}, v.blocks + {q}, Assign(v.owner, q, q + UNIT * n, q))
  }

  lemma SplitOwns(size: map<nat, nat>, blocks: set<nat>, owner: map<nat, nat>, p: nat, q: nat, n: nat, c: nat, u: nat)
    requires Tiled(size, blocks, owner) && p in blocks && 1 <= n < size[p] && q == p + UNIT * (size[p] - n)
    requires c in blocks && c <= u < c + UNIT * if c == p then size[p] - n else size[c]
    ensures u in owner && owner[u] == c && !(q <= u < q + UNIT * n)
  {
    assert u in owner && owner[u] == c;
    assert p <= u < p + UNIT * size[p] ==> owner[u] == p;
  }

  lemma SplitOwning(size: map<nat, nat>, blocks: set<nat>, owner: map<nat, nat>, p: nat, q: nat, n: nat, t: View)
    requires Tiled(size, blocks, owner) && p in blocks && 1 <= n < size[p] && q == p + UNIT * (size[p] - n)
    requires t.size == size[p := size[p] - n][q := n] && t.blocks == blocks + {q}
    requires t.owner == Assign(owner, q, q + UNIT * n, q)
    ensures q !in blocks && q in owner && Sized(t.size, t.blocks) && Owning(t.size, t.blocks, t.owner)
  {
    assert p <= q < p + UNIT * size[p];
    assert q in owner && owner[q] == p;
    forall c, u | c in t.blocks && c <= u < c + UNIT * t.size[c]
      ensures u in t.owner && t.owner[u] == c
    {
      if c != q {
        SplitOwns(size, blocks, owner, p, q, n, c, u);
      }
    }
  }

  lemma SplitBelonging(size: map<nat, nat>, blocks: set<nat>, owner: map<nat, nat>, p: nat, q: nat, n: nat, t: View)
    requires Tiled(size, blocks, owner) && p in blocks && 1 <= n < size[p] && q == p + UNIT * (size[p] - n)
    requires q !in blocks
    requires t.size == size[p := size[p] - n][q := n] && t.blocks == blocks + {q} && Sized(t.size, t.blocks)
    requires t.owner == Assign(owner, q, q + UNIT * n, q)
    ensures Belonging(t.size, t.blocks, t.owner)
    ensures forall u {:trigger u in t.owner} {:trigger u in owner} :: u in t.owner <==> u in owner
  {
    forall u | q <= u < q + UNIT * n
      ensures u in owner
    {
      assert p <= u < p + UNIT * size[p];
    }
    forall u | u in t.owner
      ensures t.owner[u] in t.blocks && t.owner[u] <= u < t.owner[u] + UNIT * t.size[t.owner[u]]
    {
      if u < q || u >= q + UNIT * n {
        assert owner[u] in blocks && owner[u] <= u < owner[u] + UNIT * size[owner[u]];
      }
    }
  }

  lemma TakeTailListed(v: View, k: nat, n: nat)
    requires Inv(v) && 1 <= k < |v.order| && v.order[k] in v.size && 1 <= n < v.size[v.order[k]]
    requires Tail(v, k, n) !in v.blocks && Tail(v, k, n) != v.order[0]
    ensures Listed(TakeTail(v, k, n))
  {}

  lemma TakeTailApart(v: View, k: nat, n: nat)
    requires Apart(v, 0, 0) && Sorted(v.order)
    requires 1 <= k < |v.order| && v.order[k] in v.size && 1 <= n < v.size[v.order[k]] && Tail(v, k, n) !in v.order
    requires forall u {:trigger u in TakeTail(v, k, n).owner} :: u in TakeTail(v, k, n).owner ==> u in v.owner
    ensures Apart(TakeTail(v, k, n), 0, 0)
  {
    var t := TakeTail(v, k, n);
    assert v.order[0] in v.order && v.order[0] != v.order[k];
    forall i | 0 <= i < |t.order| - 1
      ensures Gap(t, i, 0, 0)
    {
      assert Gap(v, i, 0, 0) && v.order[i] in v.order;
    }
  }

  lemma TakeTailTiled(v: View, k: nat, n: nat)
    requires Tiled(v.size, v.blocks, v.owner)
    requires k < |v.order| && v.order[k] in v.blocks && 1 <= n < v.size[v.order[k]]
    ensures var t := TakeTail(v, k, n); Tiled(t.size, t.blocks, t.owner)
    ensures Tail(v, k, n) !in v.blocks && Tail(v, k, n) in v.owner && SameBytes(v, TakeTail(v, k, n))
  {
    var t, p, q := TakeTail(v, k, n), v.order[k], Tail(v, k, n);
    SplitOwning(v.size, v.blocks, v.owner, p, q, n, t);
    SplitBelonging(v.size, v.blocks, v.owner, p, q, n, t);
  }

  lemma TakeTailKeeps(v: View, k: nat, n: nat)
    requires Inv(v) && 1 <= k < |v.order| && v.order[k] in v.size && 1 <= n < v.size[v.order[k]]
    ensures Inv(TakeTail(v, k, n)) && Tail(v, k, n) !in v.blocks && SameBytes(v, TakeTail(v, k, n))
  {
    assert v.order[k] in v.order;
    TakeTailTiled(v, k, n);
    TakeTailListed(v, k, n);
    TakeTailApart(v, k, n);
  }

  /** t is v with the new block a of n units handed out. */
  ghost predicate Handed(v: View, t: View, a: nat, n: nat) {
    && (forall b {:trigger b in t.live} :: b in t.live <==> b in v.live || b == a)
    && a !in v.live && a in t.size && t.size[a] == n
    && (forall b {:trigger b in v.live} :: b in v.live && b in v.size ==> b in t.size && t.size[b] == v.size[b])
    && |v.order| > 0 && |t.order| > 0 && t.order[0] == v.order[0]
  }

  lemma TakeTailHands(v: View, k: nat, n: nat)
    requires Listed(v) && 1 <= k < |v.order| && v.order[k] in v.size && 1 <= n < v.size[v.order[k]]
    requires Tail(v, k, n) !in v.blocks
    ensures Handed(v, TakeTail(v, k, n), Tail(v, k, n), n)
  {
    assert v.order[k] in v.order;
  }

  /** New memory from a on, n units, as a block handed out. */
  ghost function AddCore(v: View, a: nat, n: nat): View {
    View(v.order, v.size[a := n], v.live + {a}, v.blocks + {a}, Assign(v.owner, a, a + UNIT * n, a))
  }

  /** None of the bytes is part of the heap, and they lie above base. */
  ghost predicate NewBytes(v: View, a: nat, n: nat) {
    && |v.order| > 0 && v.order[0] < a
    && forall u {:trigger u in v.owner} :: a <= u < a + UNIT * n ==> u !in v.owner
  }

  lemma CoreOwning(size: map<nat, nat>, blocks: set<nat>, owner: map<nat, nat>, a: nat, n: nat, t: View)
    requires Tiled(size, blocks, owner) && n >= 1
    requires forall u {:trigger u in owner} :: a <= u < a + UNIT * n ==> u !in owner
    requires t.size == size[a := n] && t.blocks == blocks + {a} && t.owner == Assign(owner, a, a + UNIT * n, a)
    ensures a !in blocks && Sized(t.size, t.blocks) && Owning(t.size, t.blocks, t.owner)
  {
    assert a in blocks ==> a in owner;
    forall c, u | c in t.blocks && c <= u < c + UNIT * t.size[c]
      ensures u in t.owner && t.owner[u] == c
    {
      if c != a {
        assert u in owner && owner[u] == c;
      }
    }
  }

  lemma CoreBelonging(size: map<nat, nat>, blocks: set<nat>, owner: map<nat, nat>, a: nat, n: nat, t: View)
    requires Tiled(size, blocks, owner) && a !in blocks
    requires forall u {:trigger u in owner} :: a <= u < a + UNIT * n ==> u !in owner
    requires t.size == size[a := n] && t.blocks == blocks + {a} && t.owner == Assign(owner, a, a + UNIT * n, a)
    requires Sized(t.size, t.blocks)
    ensures Belonging(t.size, t.blocks, t.owner)
  {
    forall u | u in t.owner
      ensures t.owner[u] in t.blocks && t.owner[u] <= u < t.owner[u] + UNIT * t.size[t.owner[u]]
    {
      if u in owner {
        assert owner[u] in blocks;
      }
    }
  }

  lemma CoreKeeps(v: View, a: nat, n: nat)
    requires Inv(v) && n >= 1 && NewBytes(v, a, n)
    ensures Inv(AddCore(v, a, n)) && Handed(v, AddCore(v, a, n), a, n)
  {
    var t := AddCore(v, a, n);
    CoreOwning(v.size, v.blocks, v.owner, a, n, t);
    CoreBelonging(v.size, v.blocks, v.owner, a, n, t);
    assert a !in v.order;
    forall i | 0 <= i < |t.order| - 1
      ensures Gap(t, i, 0, 0)
    {
      assert Gap(v, i, 0, 0) && v.order[i] in v.order;
    }
  }

  // ---- the circle ----

  ghost function Succ(i: nat, n: nat): (j: nat)
    requires i < n
    ensures j < n
  {
    if i + 1 < n then i + 1 else 0
  }

  ghost predicate Link(ptr: map<nat, nat>, order: seq<nat>, i: nat)
    requires i < |order|
  {
    order[i] in ptr && ptr[order[i]] == order[Succ(i, |order|)]
  }

  ghost predicate Linked(ptr: map<nat, nat>, order: seq<nat>) {
    forall i {:trigger Link(ptr, order, i)} :: 0 <= i < |order| ==> Link(ptr, order, i)
  }

  lemma InsertLinked(ptr: map<nat, nat>, order: seq<nat>, k: nat, bp: nat)
    requires Linked(ptr, order) && Sorted(order) && Between(order, k, bp) && order[k] in ptr
    ensures Linked(ptr[bp := ptr[order[k]]][order[k] := bp], InsertAt(order, k, bp))
  {
    var ptr', order' := ptr[bp := ptr[order[k]]][order[k] := bp], InsertAt(order, k, bp);
    assert Link(ptr, order, k);
    forall i | 0 <= i < |order'|
      ensures Link(ptr', order', i)
    {
      if i < k {
        assert Link(ptr, order, i);
      } else if i > k + 1 {
        assert Link(ptr, order, i - 1);
      }
    }
  }

  lemma RemoveLinked(ptr: map<nat, nat>, order: seq<nat>, k: nat)
    requires Linked(ptr, order) && Sorted(order) && k + 1 < |order| && order[k + 1] in ptr
    ensures Linked(ptr[order[k] := ptr[order[k + 1]]], RemoveAt(order, k + 1))
  {
    var ptr', order' := ptr[order[k] := ptr[order[k + 1]]], RemoveAt(order, k + 1);
    assert Link(ptr, order, k) && Link(ptr, order, k + 1);
    forall i | 0 <= i < |order'|
      ensures Link(ptr', order', i)
    {
      if i < k {
        assert Link(ptr, order, i);
      } else if i > k {
        assert Link(ptr, order, i + 1);
      }
    }
  }

  /** Every address above the first has a place in the circle. */
  lemma GapExists(order: seq<nat>, bp: nat)
    requires Sorted(order) && |order| > 0 && order[0] < bp && bp !in order
    ensures exists k :: Between(order, k, bp)
  {
    var k := 0;
    while k + 1 < |order| && order[k + 1] < bp
      invariant 0 <= k < |order| && order[k] < bp
    {
      k := k + 1;
    }
    assert Between(order, k, bp);
  }

  /** How far it is from position i to position k, going round. */
  ghost function Steps(i: nat, k: nat, n: nat): nat
    requires i < n && k < n
  {
    if i <= k then k - i else k - i + n
  }

  /** What free does to the links: bp goes between p, the k-th free block, and its successor, and is joined
  with each of them if they touch. */
  ghost function FreedPtr(v: View, ptr: map<nat, nat>, p: nat, bp: nat): map<nat, nat>
    requires bp in v.size && p in v.size && p in ptr && (bp + UNIT * v.size[bp] == ptr[p] ==> ptr[p] in ptr)
  {
    var ptr1 := if bp + UNIT * v.size[bp] == ptr[p] then ptr[bp := ptr[ptr[p]]] else ptr[bp := ptr[p]];
    if p + UNIT * v.size[p] == bp then ptr1[p := ptr1[bp]] else ptr1[p := bp]
  }

  ghost function FreedSize(v: View, ptr: map<nat, nat>, p: nat, bp: nat): map<nat, nat>
    requires bp in v.size && p in v.size && p in ptr && (bp + UNIT * v.size[bp] == ptr[p] ==> ptr[p] in v.size)
  {
    var size1 := if bp + UNIT * v.size[bp] == ptr[p] then v.size[bp := v.size[bp] + v.size[ptr[p]]] else v.size;
    if p + UNIT * v.size[p] == bp then size1[p := size1[p] + size1[bp]] else size1
  }

  lemma FreeTests(v: View, ptr: map<nat, nat>, k: nat, bp: nat)
    requires Inv(v) && Linked(ptr, v.order) && v.order[0] < bp && Between(v.order, k, bp) && bp in v.live
    ensures bp in v.size && v.order[k] in v.size && Link(ptr, v.order, k)
    ensures bp + UNIT * v.size[bp] == ptr[v.order[k]] <==> Touches(Insert(v, k, bp), k + 1)
    ensures v.order[k] + UNIT * v.size[v.order[k]] == bp <==> Touches(Joined(Insert(v, k, bp), k + 1), k)
    ensures k + 1 < |v.order| ==> v.order[k + 1] in v.size && Link(ptr, v.order, k + 1)
  {
    assert v.order[k] in v.order && Link(ptr, v.order, k);
    if k + 1 < |v.order| {
      assert v.order[k + 1] in v.order && Link(ptr, v.order, k + 1);
    }
    TestNext(v, k, bp);
    TestPrevious(v, k, bp);
  }

  /** The block behind the place of bp starts where bp ends, if and only if the two touch once bp is there. */
  lemma TestNext(v: View, k: nat, bp: nat)
    requires Inv(v) && v.order[0] < bp && Between(v.order, k, bp) && bp in v.live
    ensures bp in v.size
    ensures Touches(Insert(v, k, bp), k + 1) <==>
            bp + UNIT * v.size[bp] == v.order[Succ(k, |v.order|)]
  {
    if k + 1 < |v.order| {
      assert v.order[k + 1] in v.order;
    }
  }

  lemma TestPrevious(v: View, k: nat, bp: nat)
    requires Inv(v) && v.order[0] < bp && Between(v.order, k, bp) && bp in v.live
    ensures bp in v.size && v.order[k] in v.size
    ensures Touches(Joined(Insert(v, k, bp), k + 1), k) <==> v.order[k] + UNIT * v.size[v.order[k]] == bp
  {
    assert v.order[k] in v.order;
  }

  lemma Overwrite(m: map<nat, nat>, a: nat, x: nat, b: nat, y: nat, z: nat)
    requires a != b
    ensures m[a := x][b := y][a := z] == m[a := z][b := y]
    ensures m[a := x][b := y][b := z] == m[a := x][b := z]
  {}

  /** The list with bp behind its k-th block, and the block after it taken out if the two are joined. */
  ghost function WithBlock(order: seq<nat>, k: nat, bp: nat, joins: bool): seq<nat>
    requires k < |order| && (joins ==> k + 1 < |order|)
  {
    if joins then RemoveAt(InsertAt(order, k, bp), k + 2) else InsertAt(order, k, bp)
  }

  lemma WithBlockLinked(ptr: map<nat, nat>, order: seq<nat>, k: nat, bp: nat, joins: bool)
    requires Linked(ptr, order) && Sorted(order) && Between(order, k, bp) && order[k] in ptr && bp != order[k]
    requires joins ==> k + 1 < |order| && order[k + 1] == ptr[order[k]] && ptr[order[k]] in ptr
    ensures var link := if joins then ptr[ptr[order[k]]] else ptr[order[k]];
            Linked(ptr[bp := link][order[k] := bp], WithBlock(order, k, bp, joins))
    ensures Sorted(WithBlock(order, k, bp, joins))
    ensures WithBlock(order, k, bp, joins)[k] == order[k] && WithBlock(order, k, bp, joins)[k + 1] == bp
  {
    InsertLinked(ptr, order, k, bp);
    InsertSorted(order, k, bp);
    if joins {
      var ptr1 := ptr[bp := ptr[order[k]]][order[k] := bp];
      RemoveLinked(ptr1, InsertAt(order, k, bp), k + 1);
      RemoveMembers(InsertAt(order, k, bp), k + 2);
      Overwrite(ptr, bp, ptr[order[k]], order[k], bp, ptr[ptr[order[k]]]);
    }
  }

  /** The links that free sets, if bp is joined with its next and its previous block or not. */
  ghost function PtrAfter(ptr: map<nat, nat>, p: nat, bp: nat, next: bool, prev: bool): map<nat, nat>
    requires p in ptr && (next ==> ptr[p] in ptr)
  {
    var link := if next then ptr[ptr[p]] else ptr[p];
    ptr[bp := link][p := if prev then link else bp]
  }

  ghost function OrderAfter(order: seq<nat>, k: nat, bp: nat, next: bool, prev: bool): seq<nat>
    requires k < |order| && (next ==> k + 1 < |order|)
  {
    if prev then RemoveAt(WithBlock(order, k, bp, next), k + 1) else WithBlock(order, k, bp, next)
  }

  lemma AfterLinked(ptr: map<nat, nat>, order: seq<nat>, k: nat, bp: nat, next: bool, prev: bool)
    requires Linked(ptr, order) && Sorted(order) && Between(order, k, bp) && order[k] in ptr && bp != order[k]
    requires next ==> k + 1 < |order| && order[k + 1] == ptr[order[k]] && ptr[order[k]] in ptr
    ensures Linked(PtrAfter(ptr, order[k], bp, next, prev), OrderAfter(order, k, bp, next, prev)) == true
  {
    WithBlockLinked(ptr, order, k, bp, next);
    if prev {
      var link := if next then ptr[ptr[order[k]]] else ptr[order[k]];
      RemoveLinked(ptr[bp := link][order[k] := bp], WithBlock(order, k, bp, next), k);
      Overwrite(ptr, bp, link, order[k], bp, link);
    }
  }

  lemma FreedOrder(v: View, k: nat, bp: nat, next: bool, prev: bool)
    requires k < |v.order| && v.order[k] in v.size && (k + 1 < |v.order| ==> v.order[k + 1] in v.size)
    requires bp in v.size && next == Touches(Insert(v, k, bp), k + 1)
    requires prev == Touches(Joined(Insert(v, k, bp), k + 1), k)
    ensures next ==> k + 1 < |v.order|
    ensures Freed(v, k, bp).order == OrderAfter(v.order, k, bp, next, prev)
  {}

  lemma FreedPtrIs(v: View, ptr: map<nat, nat>, p: nat, bp: nat, next: bool, prev: bool)
    requires bp in v.size && p in v.size && p in ptr && p != bp && (next ==> ptr[p] in ptr)
    requires next == (bp + UNIT * v.size[bp] == ptr[p]) && prev == (p + UNIT * v.size[p] == bp)
    ensures FreedPtr(v, ptr, p, bp) == PtrAfter(ptr, p, bp, next, prev)
  {}

  lemma FreedLinks(v: View, ptr: map<nat, nat>, k: nat, bp: nat)
    requires Inv(v) && Linked(ptr, v.order) && v.order[0] < bp && Between(v.order, k, bp) && bp in v.live
    requires bp in v.size && v.order[k] in v.size && v.order[k] in ptr
    requires bp + UNIT * v.size[bp] == ptr[v.order[k]] ==> ptr[v.order[k]] in ptr
    ensures Linked(FreedPtr(v, ptr, v.order[k], bp), Freed(v, k, bp).order) == true
  {
    FreeTests(v, ptr, k, bp);
    var p: nat := v.order[k];
    var next, prev := bp + UNIT * v.size[bp] == ptr[p], p + UNIT * v.size[p] == bp;
    FreedOrder(v, k, bp, next, prev);
    FreedPtrIs(v, ptr, p, bp, next, prev);
    AfterLinked(ptr, v.order, k, bp, next, prev);
  }

  lemma FreedSizes(v: View, ptr: map<nat, nat>, k: nat, bp: nat)
    requires Inv(v) && Linked(ptr, v.order) && v.order[0] < bp && Between(v.order, k, bp) && bp in v.live
    requires bp in v.size && v.order[k] in v.size && v.order[k] in ptr
    requires bp + UNIT * v.size[bp] == ptr[v.order[k]] ==> ptr[v.order[k]] in v.size
    ensures FreedSize(v, ptr, v.order[k], bp) == Freed(v, k, bp).size
  {
    FreeTests(v, ptr, k, bp);
  }

  /** After free, the block freed is part of the block behind which it was put, or is the next one. */
  lemma FreedGrows(v: View, ptr: map<nat, nat>, k: nat, bp: nat)
    requires Inv(v) && Linked(ptr, v.order) && v.order[0] < bp && Between(v.order, k, bp) && bp in v.live
    ensures var t := Freed(v, k, bp);
            && k < |t.order| && t.order[k] == v.order[k] && t.order[k] in t.size && bp in v.size
            && (|| t.size[t.order[k]] >= v.size[bp]
                || (k + 1 < |t.order| && t.order[k + 1] == bp && bp in t.size && t.size[bp] >= v.size[bp]))
  {
    FreeTests(v, ptr, k, bp);
  }

  const MAXUINT := 0x1_0000_0000

  /** The number of units malloc looks for, in 32-bit arithmetic. */
  function Nunits(nbytes: nat): nat {
    (nbytes + UNIT - 1) % MAXUINT / UNIT + 1
  }

  /** The argument of sbrk in morecore: an int. */
  function SbrkArg(nu: nat): int {
    var bytes := nu * UNIT % MAXUINT;
    if bytes < 0x8000_0000 then bytes else bytes - MAXUINT
  }

  /** A block of Nunits(nbytes) units has room for nbytes behind its header, and sbrk is asked for as much
  as morecore adds to the heap, if and only if nbytes is at most 2^31 - 16. */
  lemma RequestFits(nbytes: nat)
    requires nbytes < MAXUINT
    ensures (Nunits(nbytes) - 1) * UNIT >= nbytes && SbrkArg(Nunits(nbytes)) == Nunits(nbytes) * UNIT <==>
              nbytes <= 0x7fff_fff0
    ensures (Nunits(nbytes) - 1) * UNIT < nbytes + UNIT
  {}

  class Allocator {
    const base: nat
    var freep: nat            // 0 before the first call
    var ptr: map<nat, nat>
    var size: map<nat, nat>
    ghost var order: seq<nat>
    ghost var live: set<nat>
    ghost var blocks: set<nat>
    ghost var owner: map<nat, nat>

    ghost function Abs(): View
      reads this
    {
      View(order, size, live, blocks, owner)
    }

    ghost predicate Ready()
      reads this
    {
      base > 0 && freep in order && order[0] == base && Linked(ptr, order) && Inv(Abs())
    }

    ghost predicate Valid()
      reads this
    {
      base > 0 && if freep == 0 then order == [base] && live == {} && blocks == {} && owner == map[] else Ready()
    }

    constructor (b: nat)
      requires b > 0
      ensures Valid() && live == {} && owner == map[]
    {
      base := b;
      freep, ptr, size := 0, map[], map[];
      order, live, blocks, owner := [b], {}, {}, map[];
    }

    /** The search in free: the free block behind which bp belongs. */
    method FindGap(bp: nat) returns (p: nat, ghost k: nat)
      requires Ready() && base < bp && bp !in order
      ensures Between(order, k, bp) && p == order[k]
    {
      p := freep;
      k :| 0 <= k < |order| && order[k] == freep;
      GapExists(order, bp);
      ghost var goal :| Between(order, goal, bp);
      assert Link(ptr, order, k);
      while !(bp > p && bp < ptr[p])
        invariant 0 <= k < |order| && p == order[k] && Link(ptr, order, k)
        decreases Steps(k, goal, |order|)
      {
        if p >= ptr[p] && (bp > p || bp < ptr[p]) {
          break;
        }
        p := ptr[p];
        k := Succ(k, |order|);
        assert Link(ptr, order, k);
      }
    }

    /** The rest of free, once the place for bp is found. */
    method Relink(bp: nat, p: nat, ghost v: View)
      requires v == Abs() && bp in size && p in size && p in ptr
      requires bp + UNIT * size[bp] == ptr[p] ==> ptr[p] in ptr && ptr[p] in size
      modifies this`freep, this`ptr, this`size
      ensures ptr == FreedPtr(v, old(ptr), p, bp) && size == FreedSize(v, old(ptr), p, bp) && freep == p
    {
      ghost var ptr', size' := FreedPtr(v, ptr, p, bp), FreedSize(v, ptr, p, bp);
      if bp + UNIT * size[bp] == ptr[p] {
        size := size[bp := size[bp] + size[ptr[p]]];
        ptr := ptr[bp := ptr[ptr[p]]];
      } else {
        ptr := ptr[bp := ptr[p]];
      }
      assert p != bp ==> size[p] == v.size[p];
      if p + UNIT * size[p] == bp {
        size := size[p := size[p] + size[bp]];
        ptr := ptr[p := ptr[bp]];
      } else {
        ptr := ptr[p := bp];
      }
      freep := p;
    }

    /** free: the block whose contents start at ap goes back to the list. */
    method Free(ap: nat) returns (ghost k: nat)
      requires Ready() && ap >= UNIT && ap - UNIT in live
      modifies this
      ensures Ready() && SameLive(old(Abs()).(live := old(live) - {ap - UNIT}), Abs())
      ensures GrewBy(Abs(), k, freep, old(if ap - UNIT in size then size[ap - UNIT] else 0))
    {
      ghost var v := Abs();
      HeapAboveBase(v, ap - UNIT);
      var p: nat;
      p, k := FindGap(ap - UNIT);
      FreeResult(v, ptr, k, ap - UNIT);
      ghost var t, ptr' := Freed(v, k, ap - UNIT), FreedPtr(v, ptr, p, ap - UNIT);
      Relink(ap - UNIT, p, v);
      order, live, blocks, owner := t.order, t.live, t.blocks, t.owner;
      assert ptr == ptr' && Abs() == t;
    }

    /** morecore: at least 4096 units more, from sbrk, which returned core, or -1 if it failed. */
    method MoreCore(nu: nat, core: int) returns (p: nat, ghost k: nat)
      requires Ready() && nu >= 1 && (core >= 0 ==> NewBytes(Abs(), core, CoreUnits(nu)))
      modifies this
      ensures if core < 0 then p == 0 && unchanged(this)
              else && Ready() && p == freep && GrewBy(Abs(), k, freep, nu)
                   && Extended(old(Abs()), Abs(), core, CoreUnits(nu))
    {
      k := 0;
      if core < 0 {
        return 0, 0;
      }
      var n := CoreUnits(nu);
      ghost var v := Abs();
      ghost var t := AddCore(v, core, n);
      CoreKeeps(v, core, n);
      size := size[core := n];
      live, blocks, owner := t.live, t.blocks, t.owner;
      assert Abs() == t;
      k := Free(core + UNIT);
      CoreExtends(v, t, Abs(), core, n);
      p := freep;
    }

    /** malloc hands out the whole free block p, which follows prevp. */
    method TakeAll(prevp: nat, p: nat, ghost j: nat) returns (ap: nat)
      requires Ready() && j + 1 < |order| && prevp == order[j] && p == order[j + 1] && p in size
      modifies this
      ensures Ready() && ap >= UNIT && Handed(old(Abs()), Abs(), ap - UNIT, old(size)[p])
      ensures SameBytes(old(Abs()), Abs())
    {
      ghost var v := Abs();
      TakeAllResult(v, ptr, j);
      ghost var t, ptr' := TakeWhole(v, j + 1), ptr[prevp := ptr[p]];
      ptr := ptr[prevp := ptr[p]];
      freep := prevp;
      order, live := t.order, t.live;
      assert Abs() == t && ptr == ptr';
      return p + UNIT;
    }

    /** malloc hands out the last nunits of the larger free block p, which follows prevp. */
    method TakeEnd(prevp: nat, p: nat, nunits: nat, ghost j: nat) returns (ap: nat)
      requires Ready() && j + 1 < |order| && prevp == order[j] && p == order[j + 1]
      requires nunits >= 1 && p in size && size[p] > nunits
      modifies this
      ensures Ready() == true && ap >= UNIT && Handed(old(Abs()), Abs(), ap - UNIT, nunits) == true
      ensures SameBytes(old(Abs()), Abs()) == true
    {
      ghost var v := Abs();
      TakeTailKeeps(v, j + 1, nunits);
      TakeTailHands(v, j + 1, nunits);
      ghost var t := TakeTail(v, j + 1, nunits);
      size := size[p := size[p] - nunits];
      var q := p + UNIT * size[p];
      size := size[q := nunits];
      freep := prevp;
      live, blocks, owner := t.live, t.blocks, t.owner;
      assert Abs() == t;
      return q + UNIT;
    }

    method Take(prevp: nat, p: nat, nunits: nat, ghost j: nat) returns (ap: nat)
      requires Ready() && j < |order| && prevp == order[j] && p == order[Succ(j, |order|)]
      requires nunits >= 1 && p in size && size[p] >= nunits
      modifies this
      ensures Ready() && ap >= UNIT && Handed(old(Abs()), Abs(), ap - UNIT, nunits) && SameBytes(old(Abs()), Abs())
    {
      assert Succ(j, |order|) == j + 1;
      if size[p] == nunits {
        ap := TakeAll(prevp, p, j);
      } else {
        ap := TakeEnd(prevp, p, nunits, j);
      }
    }

    /** The first call sets up the empty list. */
    method Prepare()
      requires Valid()
      modifies this
      ensures Ready() && SameLive(old(Abs()), Abs())
      ensures if old(freep) == 0 then order == [base] && size == old(size)[base := 0] else Abs() == old(Abs())
    {
      if freep == 0 {
        ptr := ptr[base := base];
        freep := base;
        size := size[base := 0];
        assert Link(ptr, order, 0);
      }
    }

    /** How far malloc's search has come: it looks at p, which follows prevp.  Before morecore nothing looked at
    was large enough; after it, the block behind freep is, or that at freep. */
    ghost predicate Scan(v: View, prevp: nat, p: nat, j: nat, f: nat, nunits: nat, calls: nat, core: int)
      reads this
    {
      && Ready() && j < |order| && prevp == order[j] && p == order[Succ(j, |order|)] && f < |order| && order[f] == freep
      && calls <= 1
      && if calls == 0 then Abs() == v && SmallSoFar(v, f, Succ(j, |order|), nunits)
         else core >= 0 && Extended(v, Abs(), core, CoreUnits(nunits)) && GrewBy(Abs(), f, freep, nunits)
              && (size[freep] >= nunits || j == f) && AllSmall(v, nunits)
    }

    method Follow(p: nat, ghost j: nat) returns (q: nat)
      requires Ready() && j < |order| && p == order[j]
      ensures q == order[Succ(j, |order|)]
    {
      assert Link(ptr, order, j);
      q := ptr[p];
    }

    method Deliver(prevp: nat, p: nat, nunits: nat, core: int,
                   ghost o: View, ghost v: View, ghost j: nat, ghost f: nat, ghost calls: nat) returns (ap: nat)
      requires Scan(v, prevp, p, j, f, nunits, calls, core) && nunits >= 1 && p in size && size[p] >= nunits
      requires SameLive(o, v) && forall b :: b in o.live ==> b in o.size
      modifies this
      ensures Ready() && ap >= UNIT && Handed(o, Abs(), ap - UNIT, nunits)
      ensures calls == if AllSmall(v, nunits) then 1 else 0
      ensures if calls == 0 || core < 0 then SameBytes(o, Abs()) else MoreBytes(o, Abs(), core, CoreUnits(nunits))
    {
      ghost var w := Abs();
      assert calls == 0 ==> p in v.order;
      ap := Take(prevp, p, nunits, j);
      HandResult(o, v, w, Abs(), ap - UNIT, nunits, core);
    }

    method Refill(nunits: nat, core: int, ghost o: View, ghost v: View, ghost f: nat) returns (p: nat, ghost k: nat)
      requires Ready() && Abs() == v && f < |order| && order[f] == freep && freep in size && size[freep] < nunits
      requires SameLive(o, v) && SmallSoFar(v, f, f, nunits) && (core >= 0 ==> NewBytes(v, core, CoreUnits(nunits)))
      modifies this
      ensures Ready() && AllSmall(v, nunits)
      ensures if p == 0 then core < 0 && SameLive(o, Abs()) && AllSmall(Abs(), nunits)
              else core >= 0 && p == freep && k < |order| && order[k] == p && GrewBy(Abs(), k, p, nunits)
                   && Extended(v, Abs(), core, CoreUnits(nunits))
    {
      SmallAll(v, f, nunits);
      p, k := MoreCore(nunits, core);
    }

    /** One step of malloc's search, from a block p that is too small: on to the next one, or to the one
    behind freep after morecore; not ok if that failed. */
    method Next(p: nat, nunits: nat, core: int, ghost o: View, ghost v: View, ghost j: nat, ghost f: nat,
                ghost calls: nat)
      returns (ok: bool, prevp': nat, p': nat, ghost j': nat, ghost f': nat, ghost calls': nat)
      requires Scan(v, if j < |order| then order[j] else 0, p, j, f, nunits, calls, core) && p in size
      requires size[p] < nunits
      requires SameLive(o, v) && (core >= 0 ==> NewBytes(v, core, CoreUnits(nunits)))
      modifies this
      ensures if ok then Scan(v, prevp', p', j', f', nunits, calls', core)
              else Ready() && core < 0 && SameLive(o, Abs()) && AllSmall(Abs(), nunits) && calls' == 1
                   && AllSmall(v, nunits)
      ensures ok ==> calls' == 1 > calls || (calls' == calls && old(j < |order| && f < |order|)
                     && Steps(Succ(j', |order|), f', |order|) < old(Steps(Succ(j, |order|), f, |order|)))
    {
      prevp', j', f', calls' := p, Succ(j, |order|), f, calls;
      if p == freep {
        SameIndex(order, f, Succ(j, |order|));
        calls' := 1;
        prevp', f' := Refill(nunits, core, o, v, f);
        if prevp' == 0 {
          return false, 0, 0, j, f, calls';
        }
        j' := f';
      } else {
        if calls == 0 {
          SmallNext(v, f, Succ(j, |order|), nunits);
        }
        StepsDown(Succ(j, |order|), f, |order|);
      }
      ok := true;
      p' := Follow(prevp', j');
    }

    /** malloc's search for nunits. */
    method Search(nunits: nat, core: int, ghost o: View) returns (ap: nat, ghost calls: nat)
      requires Ready() && nunits >= 1 && SameLive(o, Abs()) && (forall b :: b in o.live ==> b in o.size)
      requires core >= 0 ==> NewBytes(Abs(), core, CoreUnits(nunits))
      modifies this
      ensures Ready() == true && calls == if AllSmall(old(Abs()), nunits) then 1 else 0
      ensures if ap == 0 then core < 0 && SameLive(o, Abs()) == true && AllSmall(Abs(), nunits) == true
              else ap >= UNIT && Handed(o, Abs(), ap - UNIT, nunits) == true
      ensures if calls == 0 || core < 0 then SameBytes(o, Abs()) == true
              else MoreBytes(o, Abs(), core, CoreUnits(nunits)) == true
    {
      ghost var v := Abs();
      ghost var f: nat :| f < |order| && order[f] == freep;
      ghost var j: nat := f;
      var prevp: nat := freep;
      var p: nat := Follow(prevp, j);
      calls := 0;
      var ok := true;
      while ok
        invariant calls <= 1
        invariant if ok then Scan(v, prevp, p, j, f, nunits, calls, core) == true
                  else Ready() == true && core < 0 && SameLive(o, Abs()) == true && AllSmall(Abs(), nunits) == true
                       && calls == 1 && AllSmall(v, nunits) == true
        decreases ok, 1 - calls, if ok then Steps(Succ(j, |order|), f, |order|) else 0
      {
        ListedSized(Abs(), Succ(j, |order|));
        if size[p] >= nunits {
          ap := Deliver(prevp, p, nunits, core, o, v, j, f, calls);
          return;
        }
        ok, prevp, p, j, f, calls := Next(p, nunits, core, o, v, j, f, calls);
      }
      ap := 0;
    }

    /** malloc of nbytes, for requests that fit; core is what sbrk returns if it is asked, -1 for a
    failure.  The result is a block of just the right size, apart from all others, or 0; it is 0
    only if no free block is large enough and sbrk failed.  sbrk is asked once if no free block is large
    enough, and not at all otherwise. */
    method Malloc(nbytes: nat, core: int) returns (ap: nat, ghost calls: nat)
      requires Valid() && nbytes <= 0x7fff_fff0
      requires core >= 0 ==> NewBytes(Abs(), core, CoreUnits(Nunits(nbytes)))
      modifies this
      ensures Ready() && calls == if old(freep) == 0 || AllSmall(old(Abs()), Nunits(nbytes)) then 1 else 0
      ensures if ap == 0 then core < 0 && SameLive(old(Abs()), Abs()) && AllSmall(Abs(), Nunits(nbytes))
              else ap >= UNIT && Handed(old(Abs()), Abs(), ap - UNIT, Nunits(nbytes))
      ensures if calls == 0 || core < 0 then SameBytes(old(Abs()), Abs())
              else MoreBytes(old(Abs()), Abs(), core, CoreUnits(Nunits(nbytes)))
    {
      LiveSized(this);
      Prepare();
      ap, calls := Search(Nunits(nbytes), core, old(Abs()));
    }
  }

  lemma TakeAllResult(v: View, ptr: map<nat, nat>, j: nat)
    requires Inv(v) && Linked(ptr, v.order) && j + 1 < |v.order|
    ensures var t, p := TakeWhole(v, j + 1), v.order[j + 1];
            && p in v.size && p in ptr && Inv(t) && Linked(ptr[v.order[j] := ptr[p]], t.order)
            && v.order[j] in t.order && Handed(v, t, p, v.size[p]) && SameBytes(v, t)
  {
    TakeAllHands(v, j);
    TakeAllLinked(v, ptr, j);
  }

  lemma TakeAllHands(v: View, j: nat)
    requires Inv(v) && j + 1 < |v.order|
    ensures var t, p := TakeWhole(v, j + 1), v.order[j + 1];
            p in v.size && Inv(t) == true && Handed(v, t, p, v.size[p]) == true && SameBytes(v, t) == true
  {
    assert v.order[j + 1] in v.order;
    TakeWholeKeeps(v, j + 1);
  }

  lemma TakeAllLinked(v: View, ptr: map<nat, nat>, j: nat)
    requires Inv(v) && Linked(ptr, v.order) && j + 1 < |v.order|
    ensures var t, p := TakeWhole(v, j + 1), v.order[j + 1];
            p in ptr && Linked(ptr[v.order[j] := ptr[p]], t.order) == true && v.order[j] in t.order
  {
    assert Link(ptr, v.order, j + 1);
    RemoveLinked(ptr, v.order, j);
    RemoveMembers(v.order, j + 1);
    assert v.order[j] in v.order;
  }

  lemma LiveSized(h: Allocator)
    requires h.Valid()
    ensures forall b :: b in h.live ==> b in h.size
  {}

  lemma ListedSized(v: View, i: nat)
    requires Inv(v) && i < |v.order|
    ensures v.order[i] in v.size
  {
    assert v.order[i] in v.order;
  }

  /** The blocks from behind position f up to position i are too small. */
  ghost predicate SmallSoFar(v: View, f: nat, i: nat, n: nat)
    requires f < |v.order| && i < |v.order|
  {
    forall k :: 0 <= k < |v.order| && Steps(k, f, |v.order|) > Steps(i, f, |v.order|) ==>
      v.order[k] in v.size && v.size[v.order[k]] < n
  }

  ghost predicate AllSmall(v: View, n: nat) {
    forall a {:trigger a in v.order} :: a in v.order ==> a in v.size && v.size[a] < n
  }

  lemma SmallNext(v: View, f: nat, i: nat, n: nat)
    requires f < |v.order| && i < |v.order| && i != f && SmallSoFar(v, f, i, n) && v.order[i] in v.size
    requires v.size[v.order[i]] < n
    ensures SmallSoFar(v, f, Succ(i, |v.order|), n)
  {}

  lemma SmallAll(v: View, f: nat, n: nat)
    requires f < |v.order| && v.order[f] in v.size
    ensures SmallSoFar(v, f, f, n) && v.size[v.order[f]] < n ==> AllSmall(v, n)
  {}

  lemma SameIndex(order: seq<nat>, i: nat, j: nat)
    requires Sorted(order) && i < |order| && j < |order| && order[i] == order[j]
    ensures i == j
  {}

  lemma StepsDown(i: nat, f: nat, n: nat)
    requires i < n && f < n && i != f
    ensures Steps(Succ(i, n), f, n) < Steps(i, f, n)
  {}

  lemma HandResult(o: View, v: View, w: View, t: View, a: nat, n: nat, core: int)
    requires SameLive(o, v) && Handed(w, t, a, n) && SameBytes(w, t)
    requires w == v || (core >= 0 && Extended(v, w, core, CoreUnits(n)))
    requires forall b :: b in o.live ==> b in o.size
    ensures Handed(o, t, a, n)
    ensures if w == v then SameBytes(o, t) else MoreBytes(o, t, core, CoreUnits(n))
  {}

  ghost predicate MoreBytes(v: View, t: View, a: nat, n: nat) {
    forall u {:trigger u in t.owner} :: u in t.owner <==> u in v.owner || a <= u < a + UNIT * n
  }

  function CoreUnits(nu: nat): (n: nat)
    ensures n >= 4096 && n >= nu && (n == 4096 || n == nu)
  {
    if nu < 4096 then 4096 else nu
  }

  /** t is v with n units of memory more, from a on; the blocks handed out are the same. */
  ghost predicate Extended(v: View, t: View, a: nat, n: nat) {
    && t.live == v.live && |t.order| > 0 && |v.order| > 0 && t.order[0] == v.order[0]
    && MoreBytes(v, t, a, n)
    && forall b {:trigger b in v.live} :: b in v.live && b in v.size ==> b in t.size && t.size[b] == v.size[b]
  }

  lemma CoreExtends(v: View, t: View, w: View, a: nat, n: nat)
    requires t == AddCore(v, a, n) && Handed(v, t, a, n) && SameLive(t.(live := t.live - {a}), w)
    ensures Extended(v, w, a, n)
  {
    assert t.live - {a} == v.live;
  }

  /** A block of at least n units is at position k, where freep points, or right behind it. */
  ghost predicate GrewBy(t: View, k: nat, freep: nat, n: nat) {
    && k < |t.order| && t.order[k] == freep && freep in t.size
    && (t.size[freep] >= n || (k + 1 < |t.order| && t.order[k + 1] in t.size && t.size[t.order[k + 1]] >= n))
  }

  lemma FreeResult(v: View, ptr: map<nat, nat>, k: nat, bp: nat)
    requires Inv(v) && Linked(ptr, v.order) && v.order[0] < bp && Between(v.order, k, bp) && bp in v.live
    ensures bp in v.size && v.order[k] in v.size && v.order[k] in ptr
    ensures bp + UNIT * v.size[bp] == ptr[v.order[k]] ==> ptr[v.order[k]] in ptr && ptr[v.order[k]] in v.size
    ensures var t := Freed(v, k, bp);
            && Inv(t) && SameLive(v.(live := v.live - {bp}), t) && GrewBy(t, k, v.order[k], v.size[bp])
            && Linked(FreedPtr(v, ptr, v.order[k], bp), t.order) && FreedSize(v, ptr, v.order[k], bp) == t.size
            && v.order[k] in t.order
  {
    FreeTests(v, ptr, k, bp);
    FreedKeeps(v, k, bp);
    FreedLinks(v, ptr, k, bp);
    FreedSizes(v, ptr, k, bp);
    FreedGrows(v, ptr, k, bp);
  }

  lemma HeapAboveBase(v: View, bp: nat)
    requires Inv(v) && bp in v.live
    ensures v.order[0] < bp && bp !in v.order && bp in v.size
  {
    assert bp in v.blocks;
    assert bp in v.owner;
  }
}
