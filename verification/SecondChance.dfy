/** The second-chance FIFO page replacement: which page the search through the queue ends with, and what
it leaves of the queue and of the accessed bits. */
module SecondChance {
  import opened Paging

  /** rest is queue without va, in any order. */
  ghost predicate Without(queue: seq<nat>, va: nat, rest: seq<nat>) {
    && va in queue && va !in rest && |rest| == |queue| - 1
    && (forall j, k :: 0 <= j < k < |rest| ==> rest[j] != rest[k])
    && (forall x {:trigger x in rest} :: x in rest ==> x in queue)
    && (forall x {:trigger x in queue} :: x in queue && x != va ==> x in rest)
  }

  /** The position of the first page in queue order that has not been accessed, |q| if all have. */
  ghost function FirstCold(q: seq<nat>, ptes: map<nat, Pte>): (k: nat)
    requires forall j :: 0 <= j < |q| ==> q[j] in ptes
    ensures k <= |q| && (forall j :: 0 <= j < k ==> ptes[q[j]].accessed)
    ensures k < |q| ==> !ptes[q[k]].accessed
  {
    if q == [] then 0 else if !ptes[q[0]].accessed then 0 else 1 + FirstCold(q[1..], ptes)
  }

  /** The page table with the accessed bits of the given pages cleared. */
  ghost function Cooled(ptes: map<nat, Pte>, q: seq<nat>): map<nat, Pte> {
    map va | va in ptes :: if va in q then ptes[va].(accessed := false) else ptes[va]
  }

  ghost function Rotated(q: seq<nat>, k: nat): seq<nat>
    requires k <= |q|
  {
    q[k..] + q[..k]
  }

  /** One page gets its second chance. */
  lemma NextChance(q: seq<nat>, ptes: map<nat, Pte>, k: nat)
    requires k < |q| && q[k] in ptes
    ensures Rotated(q, k)[0] == q[k] && Rotated(q, k)[1..] + [q[k]] == Rotated(q, k + 1)
    ensures Rotated(q, k)[1..] == q[k + 1..] + q[..k]
    ensures var c := Cooled(ptes, q[..k]);
            q[k] in c && c[q[k] := c[q[k]].(accessed := false)] == Cooled(ptes, q[..k + 1])
  {
    assert q[..k + 1] == q[..k] + [q[k]];
    forall va {:trigger va in q[..k + 1]} ensures va in q[..k + 1] <==> va in q[..k] || va == q[k] {}
  }

  /** What ends the search: an unaccessed page, or the old head after a full turn. */
  lemma LastChance(q: seq<nat>, ptes: map<nat, Pte>, k: nat)
    requires k <= |q| && q != [] && (forall j :: 0 <= j < |q| ==> q[j] in ptes)
    requires forall i, j :: 0 <= i < j < |q| ==> q[i] != q[j]
    requires forall j :: 0 <= j < k ==> ptes[q[j]].accessed
    ensures k < |q| ==> q[k] in Cooled(ptes, q[..k]) && Cooled(ptes, q[..k])[q[k]].accessed == ptes[q[k]].accessed
    ensures k < |q| && !ptes[q[k]].accessed ==> FirstCold(q, ptes) == k
    ensures k == |q| ==> FirstCold(q, ptes) == k && q[0] in Cooled(ptes, q[..k]) && !Cooled(ptes, q[..k])[q[0]].accessed
    ensures k == |q| ==> Rotated(q, k) == q
  {
    var f := FirstCold(q, ptes);
    if k < |q| {
      assert q[k] !in q[..k];
    } else {
      assert q[..k] == q && q[0] in q;
    }
  }

  /** Taking the k-th element out of q and rotating the first k behind the rest leaves q without it. */
  lemma RotateOut(q: seq<nat>, k: nat)
    requires k < |q| && forall i, j :: 0 <= i < j < |q| ==> q[i] != q[j]
    ensures Without(q, q[k], q[k + 1..] + q[..k])
  {
    var rest := q[k + 1..] + q[..k];
    forall i | 0 <= i < |rest|
      ensures rest[i] == q[if i < |q| - k - 1 then k + 1 + i else i - (|q| - k - 1)]
    {}
    forall x | x in q && x != q[k]
      ensures x in rest
    {
      var i :| 0 <= i < |q| && q[i] == x;
      assert rest[if i < k then |q| - k - 1 + i else i - k - 1] == x;
    }
  }

  ghost predicate Mapped(q: seq<nat>, ptes: map<nat, Pte>) {
    forall j :: 0 <= j < |q| ==> q[j] in ptes
  }

  /** The selection's victim, what it leaves of the queue, and of the page table. */
  ghost function Victim(q: seq<nat>, ptes: map<nat, Pte>): nat
    requires q != [] && Mapped(q, ptes)
  {
    var k := FirstCold(q, ptes);
    q[if k < |q| then k else 0]
  }

  ghost function Spared(q: seq<nat>, ptes: map<nat, Pte>): seq<nat>
    requires q != [] && Mapped(q, ptes)
  {
    var k := FirstCold(q, ptes);
    if k < |q| then q[k + 1..] + q[..k] else q[1..]
  }

  ghost function AllCooled(q: seq<nat>, ptes: map<nat, Pte>): map<nat, Pte>
    requires Mapped(q, ptes)
  {
    Cooled(ptes, q[..FirstCold(q, ptes)])
  }

  /** What the search has found when it ends after k pages. */
  lemma Chosen(q: seq<nat>, ptes: map<nat, Pte>, k: nat)
    requires q != [] && Mapped(q, ptes) && k <= |q| && (forall i, j :: 0 <= i < j < |q| ==> q[i] != q[j])
    requires (forall j :: 0 <= j < k ==> ptes[q[j]].accessed) && (k < |q| ==> !ptes[q[k]].accessed)
    ensures AllCooled(q, ptes) == Cooled(ptes, q[..k])
    ensures Rotated(q, k) != [] && Victim(q, ptes) == Rotated(q, k)[0] && Spared(q, ptes) == Rotated(q, k)[1..]
  {
    LastChance(q, ptes, k);
    if k < |q| {
      NextChance(q, ptes, k);
    }
  }

  /** Whether the head of the queue has been accessed since it was last looked at. */
  lemma HeadAccessed(q: seq<nat>, ptes: map<nat, Pte>, k: nat)
    requires q != [] && Mapped(q, ptes) && k <= |q| && (forall i, j :: 0 <= i < j < |q| ==> q[i] != q[j])
    requires forall j :: 0 <= j < k ==> ptes[q[j]].accessed
    ensures Rotated(q, k) != [] && Rotated(q, k)[0] in Cooled(ptes, q[..k])
    ensures Cooled(ptes, q[..k])[Rotated(q, k)[0]].accessed <==> k < |q| && ptes[q[k]].accessed
  {
    LastChance(q, ptes, k);
  }

  lemma VictimQueued(q: seq<nat>, ptes: map<nat, Pte>)
    requires q != [] && Mapped(q, ptes) && forall i, j :: 0 <= i < j < |q| ==> q[i] != q[j]
    ensures Victim(q, ptes) in q && Without(q, Victim(q, ptes), Spared(q, ptes))
  {
    var k := FirstCold(q, ptes);
    RotateOut(q, if k < |q| then k else 0);
    assert q[1..] + q[..0] == q[1..];
  }
}
