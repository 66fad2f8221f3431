/** The ages behind the NFUA page replacement: what an age says about a page's past. */
module Aging {
  import opened Powers

  const MSB := 0x8000_0000

  /** The age after a clock tick: shifted right, with the accessed bit coming in at the top. */
  function NextAge(age: nat, accessed: bool): nat {
    age / 2 + if accessed then MSB else 0
  }

  /** The age of a page that was brought in with age 0 and sampled |h| times since; h[0] is the latest
  sample. */
  ghost function AgeOf(h: seq<bool>): nat {
    if h == [] then 0 else NextAge(AgeOf(h[1..]), h[0])
  }

  /** The same for a page that was brought in with another age. */
  ghost function AgeFrom(start: nat, h: seq<bool>): nat {
    if h == [] then start else NextAge(AgeFrom(start, h[1..]), h[0])
  }

  /** The sample k ticks ago; before the page was brought in it counts as not accessed. */
  ghost predicate Sample(h: seq<bool>, k: nat) {
    k < |h| && h[k]
  }

  /** The samples from k ticks ago on, as the bits of a number of w bits, the latest on top. */
  ghost function Bits(h: seq<bool>, k: nat, w: nat): nat
    decreases w
  {
    if w == 0 then 0 else (if Sample(h, k) then Pow2(w - 1) else 0) + Bits(h, k + 1, w - 1)
  }

  lemma {:induction false} BitsBound(h: seq<bool>, k: nat, w: nat)
    ensures Bits(h, k, w) < Pow2(w)
    decreases w
  {
    if w > 0 {
      BitsBound(h, k + 1, w - 1);
    }
  }

  /** Shifting right drops the oldest sample. */
  lemma {:induction false} BitsHalf(h: seq<bool>, k: nat, w: nat)
    ensures Bits(h, k, w + 1) / 2 == Bits(h, k, w)
    decreases w
  {
    if w > 0 {
      BitsHalf(h, k + 1, w - 1);
    }
  }

  lemma {:induction false} BitsTail(h: seq<bool>, k: nat, w: nat)
    requires h != []
    ensures Bits(h, k + 1, w) == Bits(h[1..], k, w)
    decreases w
  {
    if w > 0 {
      BitsTail(h, k + 1, w - 1);
    }
  }

  lemma {:induction false} BitsOfNothing(k: nat, w: nat)
    ensures Bits([], k, w) == 0
    decreases w
  {
    if w > 0 {
      BitsOfNothing(k + 1, w - 1);
    }
  }

  lemma Pow31()
    ensures Pow2(31) == MSB
  {
    assert Pow2(4) == 16 && Pow2(8) == 256 && Pow2(12) == 4096 && Pow2(16) == 0x1_0000;
    assert Pow2(20) == 0x10_0000 && Pow2(24) == 0x100_0000 && Pow2(28) == 0x1000_0000;
  }

  /** An age is exactly the last 32 samples; it always fits a uint. */
  lemma {:induction false} AgeIsHistory(h: seq<bool>)
    ensures AgeOf(h) == Bits(h, 0, 32) && AgeOf(h) < Pow2(32)
    decreases |h|
  {
    BitsBound(h, 0, 32);
    if h == [] {
      BitsOfNothing(0, 32);
    } else {
      AgeIsHistory(h[1..]);
      BitsHalf(h[1..], 0, 31);
      BitsTail(h, 0, 31);
      Pow31();
    }
  }

  /** Of the last 32 samples, at the latest one in which the two pages differ, g was not accessed and h
  was: g has not been used for longer. */
  ghost predicate Colder(g: seq<bool>, h: seq<bool>, k: nat, w: nat) {
    exists j :: k <= j < k + w && !Sample(g, j) && Sample(h, j)
                && forall i :: k <= i < j ==> Sample(g, i) == Sample(h, i)
  }

  lemma {:induction false} ColderIffLess(g: seq<bool>, h: seq<bool>, k: nat, w: nat)
    ensures Colder(g, h, k, w) <==> Bits(g, k, w) < Bits(h, k, w)
    decreases w
  {
    if w > 0 {
      BitsBound(g, k + 1, w - 1);
      BitsBound(h, k + 1, w - 1);
      ColderIffLess(g, h, k + 1, w - 1);
      if Colder(g, h, k + 1, w - 1) && Sample(g, k) == Sample(h, k) {
        var j :| k + 1 <= j < k + w && !Sample(g, j) && Sample(h, j)
                 && forall i :: k + 1 <= i < j ==> Sample(g, i) == Sample(h, i);
        assert forall i :: k <= i < j ==> Sample(g, i) == Sample(h, i);
      }
    }
  }

  /** Comparing ages is comparing the last 32 samples, the latest first. */
  lemma LessIffColder(g: seq<bool>, h: seq<bool>)
    ensures AgeOf(g) < AgeOf(h) <==> Colder(g, h, 0, 32)
  {
    AgeIsHistory(g);
    AgeIsHistory(h);
    ColderIffLess(g, h, 0, 32);
  }
}
