/** The queue of resident pages: a fixed array of page records with an index behind its last
element, shifted down when its head leaves. */
module PageQueue {

  const MAX_TOTAL_PAGES := 32

  /** struct page: one entry of the paging meta-data, and one element of the queue. */
  datatype Page = Page(live: bool, vaddr: nat, inBack: bool, offset: nat, age: nat, age2: nat)

  const NoPage := Page(false, 0, false, 0, 0, 0)

  function Cleared(p: Page): Page {
    NoPage.(offset := p.offset)
  }

  /** The first position of s at which an existing page has address va, |s| if there is none. */
  function FirstAt(s: seq<Page>, va: nat): (k: nat)
    ensures k <= |s|
    ensures k < |s| ==> s[k].live && s[k].vaddr == va
    ensures forall j :: 0 <= j < k ==> !(s[j].live && s[j].vaddr == va)
  {
    if s == [] then 0 else if s[0].live && s[0].vaddr == va then 0 else 1 + FirstAt(s[1..], va)
  }

  class Queue {
    const pages: array<Page>
    var lastIndex: int

    ghost predicate Valid()
      reads this, pages
    {
      && pages.Length == MAX_TOTAL_PAGES && 0 <= lastIndex <= MAX_TOTAL_PAGES
      && (forall k :: 0 <= k < lastIndex ==> pages[k].live)
      && forall k :: lastIndex <= k < MAX_TOTAL_PAGES ==> !pages[k].live
    }

    ghost function Contents(): (s: seq<Page>)
      reads this, pages
      requires Valid()
      ensures |s| == lastIndex
    {
      pages[..lastIndex]
    }

    constructor ()
      ensures Valid() && Contents() == [] && fresh(pages)
    {
      pages := new Page[MAX_TOTAL_PAGES](_ => NoPage);
      lastIndex := 0;
    }

    /** enqueue: append a page; false where the kernel panics because the queue is full. */
    method Enqueue(p: Page) returns (ok: bool)
      requires Valid() && p.live
      modifies this, pages
      ensures Valid() && (ok <==> |old(Contents())| < MAX_TOTAL_PAGES)
      ensures Contents() == if ok then old(Contents()) + [p] else old(Contents())
    {
      ok := lastIndex != MAX_TOTAL_PAGES;
      if ok {
        pages[lastIndex] := p;
        lastIndex := lastIndex + 1;
      }
    }

    /** Shift everything behind position k down by one, and clear the last element. */
    method ShiftDown(k: nat)
      requires pages.Length == MAX_TOTAL_PAGES && k <= MAX_TOTAL_PAGES
      modifies pages
      ensures forall j :: 0 <= j < k ==> pages[j] == old(pages[j])
      ensures forall j :: k <= j < MAX_TOTAL_PAGES - 1 ==> pages[j] == old(pages[j + 1])
      ensures k < MAX_TOTAL_PAGES ==> !pages[MAX_TOTAL_PAGES - 1].live
    {
      var i := k;
      while i < MAX_TOTAL_PAGES
        invariant k <= i <= MAX_TOTAL_PAGES
        invariant forall j :: 0 <= j < k ==> pages[j] == old(pages[j])
        invariant forall j :: k <= j < i && j < MAX_TOTAL_PAGES - 1 ==> pages[j] == old(pages[j + 1])
        invariant forall j :: i <= j < MAX_TOTAL_PAGES ==> pages[j] == old(pages[j])
        invariant i == MAX_TOTAL_PAGES && k < i ==> !pages[MAX_TOTAL_PAGES - 1].live
      {
        if i == MAX_TOTAL_PAGES - 1 {
          pages[i] := Cleared(pages[i]);
        } else {
          pages[i] := pages[i + 1];
        }
        i := i + 1;
      }
    }

    /** dequeue: remove and return the head. */
    method Dequeue() returns (p: Page)
      requires Valid() && Contents() != []
      modifies this, pages
      ensures Valid() && p == old(Contents())[0] && Contents() == old(Contents())[1..]
    {
      p := pages[0];
      pages[0] := Cleared(pages[0]);
      ShiftDown(0);
      lastIndex := lastIndex - 1;
    }

    /** free_from_queue: remove the first page with address va, if there is one. */
    method Remove(va: nat)
      requires Valid()
      modifies this, pages
      ensures Valid()
      ensures var s := old(Contents());
              var k := FirstAt(s, va);
              Contents() == if k < |s| then s[..k] + s[k + 1..] else s
    {
      ghost var s, was := Contents(), pages[..];
      var k := 0;
      while k < MAX_TOTAL_PAGES && !(pages[k].live && pages[k].vaddr == va)
        invariant 0 <= k <= MAX_TOTAL_PAGES
        invariant forall j :: 0 <= j < k ==> !(pages[j].live && pages[j].vaddr == va)
      {
        k := k + 1;
      }
      if k < MAX_TOTAL_PAGES {
        lastIndex := lastIndex - 1;
      }
      assert k == MAX_TOTAL_PAGES ==> FirstAt(s, va) == |s|;
      assert k < MAX_TOTAL_PAGES ==> k < |s| && FirstAt(s, va) == k;
      ShiftDown(k);
      if k < MAX_TOTAL_PAGES {
        CutOut(was, pages[..], |s|, k);
      }
    }
  }

  /** Shifting down everything behind position k takes that element out of the first n. */
  lemma CutOut(a: seq<Page>, b: seq<Page>, n: nat, k: nat)
    requires |a| == |b| && k < n <= |a| && (forall j :: 0 <= j < k ==> b[j] == a[j])
    requires forall j :: k <= j < |a| - 1 ==> b[j] == a[j + 1]
    ensures b[..n - 1] == a[..n][..k] + a[..n][k + 1..]
  {
    var c := a[..n][..k] + a[..n][k + 1..];
    assert forall j :: 0 <= j < n - 1 ==> b[j] == c[j];
  }
}
