/** pipe.c: a pipe is a ring of PIPESIZE bytes with two counters that wrap around at 2^32.  A method is what a
process does between taking the pipe's lock and giving it up, by returning or by going to sleep. */
module Pipes {
  import opened Blocks

  const PIPESIZE := 512

  /** A call returned n, or -1; or it sleeps, and goes on from here when woken. */
  datatype Outcome = Done | Failed | Sleeps

  /** The counters and the position in the ring do not notice that the counters wrap around, because PIPESIZE divides
  2^32. */
  lemma Wraps(n: nat)
    ensures (n % WORD_LIMIT + 1) % WORD_LIMIT == (n + 1) % WORD_LIMIT
    ensures n % WORD_LIMIT % PIPESIZE == n % PIPESIZE
  {
    assert WORD_LIMIT == 0x80_0000 * PIPESIZE;
    var q := n / WORD_LIMIT;
    assert n == q * (0x80_0000 * PIPESIZE) + n % WORD_LIMIT;
    assert n == (q * 0x80_0000) * PIPESIZE + n % WORD_LIMIT;
    SameRemainder(q * 0x80_0000, n % WORD_LIMIT);
  }

  lemma SameRemainder(m: nat, r: nat)
    ensures (m * PIPESIZE + r) % PIPESIZE == r % PIPESIZE
  {}

  /** With at most PIPESIZE bytes in the ring, comparing the counters tells an empty and a full ring. */
  lemma CountersTell(g: nat, s: nat)
    requires g <= s <= g + PIPESIZE
    ensures g % WORD_LIMIT == s % WORD_LIMIT <==> s == g
    ensures s % WORD_LIMIT == (g % WORD_LIMIT + PIPESIZE) % WORD_LIMIT <==> s == g + PIPESIZE
  {
    var q, r := g / WORD_LIMIT, g % WORD_LIMIT;
    var d := s - g;
    assert s == q * WORD_LIMIT + (r + d);
    assert (r + d) % WORD_LIMIT == if r + d < WORD_LIMIT then r + d else r + d - WORD_LIMIT;
    assert (r + PIPESIZE) % WORD_LIMIT == if r + PIPESIZE < WORD_LIMIT then r + PIPESIZE else r + PIPESIZE - WORD_LIMIT;
  }

  lemma OtherSlot(k: nat, n: nat)
    requires k < n < k + PIPESIZE
    ensures k % PIPESIZE != n % PIPESIZE
  {}

  class Pipe {
    const data: array<byte>
    var nread: nat
    var nwrite: nat
    var readopen: bool
    var writeopen: bool
    var readersAsleep: bool   // someone sleeps on nread
    var writersAsleep: bool   // someone sleeps on nwrite
    ghost var sent: seq<byte> // every byte accepted so far
    ghost var got: seq<byte>  // every byte delivered so far

    /** The counters count, and the ring holds what was sent and not yet delivered. */
    ghost predicate Valid()
      reads this, data
    {
      && data.Length == PIPESIZE && nwrite == |sent| % WORD_LIMIT && nread == |got| % WORD_LIMIT
      && |got| <= |sent| <= |got| + PIPESIZE && got == sent[..|got|]
      && forall k {:trigger sent[k]} :: |got| <= k < |sent| ==> data[k % PIPESIZE] == sent[k]
    }

    constructor ()
      ensures Valid() && Settled() && fresh(data) && sent == [] && got == [] && readopen && writeopen
    {
      data := new byte[PIPESIZE](_ => 0);
      nread, nwrite, readopen, writeopen := 0, 0, true, true;
      readersAsleep, writersAsleep := false, false;
      sent, got := [], [];
    }

    ghost predicate Empty()
      reads this
    {
      nread == nwrite
    }

    ghost predicate Full()
      reads this
    {
      nwrite == (nread + PIPESIZE) % WORD_LIMIT
    }

    /** Whoever sleeps has a reason to: readers for bytes, writers for room. */
    ghost predicate Settled()
      reads this
    {
      (readersAsleep ==> Empty() && readopen && writeopen) && (writersAsleep ==> Full() && readopen)
    }

    method Put(b: byte)
      requires Valid() && |sent| < |got| + PIPESIZE
      modifies this`nwrite, this`sent, data
      ensures Valid() && sent == old(sent) + [b]
    {
      Wraps(|sent|);
      forall k | |got| <= k < |sent|
        ensures k % PIPESIZE != nwrite % PIPESIZE
      {
        OtherSlot(k, |sent|);
      }
      data[nwrite % PIPESIZE] := b;
      nwrite := (nwrite + 1) % WORD_LIMIT;
      sent := sent + [b];
    }

    /** pipewrite from byte `start` of buf on. */
    method Write(buf: seq<byte>, start: nat, killed: bool) returns (out: Outcome, i: nat)
      requires Valid() && start <= |buf|
      modifies this, data
      ensures Valid() && start <= i <= |buf| && got == old(got) && sent == old(sent) + buf[start..i]
      ensures out.Done? <==> i == |buf|
      ensures !out.Done? ==> Full() && (out.Failed? <==> !readopen || killed)
      ensures readopen == old(readopen) && writeopen == old(writeopen)
      ensures readersAsleep == (old(readersAsleep) && out.Failed?)
      ensures writersAsleep == (old(writersAsleep) || out.Sleeps?)
      ensures old(Settled()) ==> (Settled() <==> !(killed && old(readersAsleep) && |buf| - start > PIPESIZE))
    {
      CountersTell(|got|, |sent|);
      i := start;
      while i < |buf|
        invariant Valid() && start <= i <= |buf| && got == old(got) && sent == old(sent) + buf[start..i]
        invariant unchanged(`readopen) && unchanged(`writeopen) && unchanged(`readersAsleep) && unchanged(`nread)
        invariant writersAsleep == old(writersAsleep) && (old(Settled()) && writersAsleep ==> Full() && i == start)
      {
        CountersTell(|got|, |sent|);
        if nwrite == (nread + PIPESIZE) % WORD_LIMIT {
          if !readopen || killed {
            return Failed, i;
          }
          readersAsleep := false;
          writersAsleep := true;
          return Sleeps, i;
        }
        Put(buf[i]);
        i := i + 1;
      }
      CountersTell(|got|, |sent|);
      readersAsleep := false;
      return Done, i;
    }

    method Get() returns (b: byte)
      requires Valid() && |got| < |sent|
      modifies this`nread, this`got
      ensures Valid() && got == old(got) + [b]
    {
      Wraps(|got|);
      assert data[|got| % PIPESIZE] == sent[|got|];
      b := data[nread % PIPESIZE];
      nread := (nread + 1) % WORD_LIMIT;
      got := got + [b];
    }

    /** piperead of up to n bytes. */
    method Read(n: int, killed: bool) returns (out: Outcome, bytes: seq<byte>)
      requires Valid() && readopen
      modifies this
      ensures Valid() && (old(Settled()) ==> Settled()) && sent == old(sent) && got == old(got) + bytes
      ensures !out.Done? <==> old(Empty()) && writeopen
      ensures readersAsleep == (old(readersAsleep) || out.Sleeps?)
      ensures writersAsleep == (old(writersAsleep) && !out.Done?)
      ensures !out.Done? ==> bytes == [] && (out.Failed? <==> killed)
      ensures out.Done? ==> |bytes| == if n <= 0 then 0 else if n < |sent| - |old(got)| then n else |sent| - |old(got)|
      ensures readopen == old(readopen) && writeopen == old(writeopen)
    {
      bytes := [];
      CountersTell(|got|, |sent|);
      if nread == nwrite && writeopen {
        if killed {
          return Failed, [];
        }
        readersAsleep := true;
        return Sleeps, [];
      }
      var i := 0;
      while i < n
        invariant Valid() && sent == old(sent) && got == old(got) + bytes && |bytes| == i
        invariant if n > 0 then i <= n else i == 0
        invariant unchanged(`readopen) && unchanged(`writeopen) && unchanged(`readersAsleep) && unchanged(`nwrite)
        invariant unchanged(`writersAsleep)
      {
        CountersTell(|got|, |sent|);
        if nread == nwrite {
          assert |got| == |sent|;
          break;
        }
        var b := Get();
        bytes := bytes + [b];
        i := i + 1;
      }
      CountersTell(|got|, |sent|);
      writersAsleep := false;
      return Done, bytes;
    }

    /** pipeclose; the last process with that end open is not asleep on it. */
    method Close(writable: bool)
      requires Valid() && (if writable then !writersAsleep else !readersAsleep)
      modifies this
      ensures Valid() && (old(Settled()) ==> Settled()) && sent == old(sent) && got == old(got)
      ensures if writable then !writeopen && !readersAsleep && readopen == old(readopen)
              else !readopen && !writersAsleep && writeopen == old(writeopen)
    {
      if writable {
        writeopen := false;
        readersAsleep := false;
      } else {
        readopen := false;
        writersAsleep := false;
      }
    }

    /** The i-th byte of the ring from nread on, and how many there are, as the counters tell. */
    ghost function RingAt(i: nat): byte
      requires data.Length == PIPESIZE
      reads this, data
    {
      data[(nread + i) % WORD_LIMIT % PIPESIZE]
    }

    ghost function RingSize(): nat
      reads this
    {
      (nwrite - nread) % WORD_LIMIT
    }

    lemma RingHolds(i: nat)
      requires Valid() && i < |sent| - |got|
      ensures RingAt(i) == sent[|got| + i]
    {
      Offset(|got|, i);
      Wraps(|got| + i);
      assert data[(|got| + i) % PIPESIZE] == sent[|got| + i];
    }

    /** At any time the bytes delivered, followed by the bytes in the ring, are the bytes accepted, in order; and the
    difference of the counters, mod 2^32, is at most PIPESIZE. */
    lemma Fifo()
      requires Valid()
      ensures RingSize() <= PIPESIZE && |got| + RingSize() == |sent| && got == sent[..|got|]
      ensures forall i {:trigger RingAt(i)} :: 0 <= i < RingSize() ==> RingAt(i) == sent[|got| + i]
    {
      Difference(|got|, |sent|);
      forall i: nat | i < |sent| - |got|
        ensures RingAt(i) == sent[|got| + i]
      {
        RingHolds(i);
      }
    }
  }

  lemma Offset(g: nat, i: nat)
    ensures (g % WORD_LIMIT + i) % WORD_LIMIT == (g + i) % WORD_LIMIT
  {}

  lemma Difference(g: nat, s: nat)
    requires g <= s <= g + PIPESIZE
    ensures (s % WORD_LIMIT - g % WORD_LIMIT) % WORD_LIMIT == s - g
  {
    var q, r, d := g / WORD_LIMIT, g % WORD_LIMIT, s - g;
    assert s == q * WORD_LIMIT + (r + d);
    assert s % WORD_LIMIT == if r + d < WORD_LIMIT then r + d else r + d - WORD_LIMIT;
  }

  /** A reader sleeps; a writer that is killed meanwhile fills the ring and gives up.  The reader still sleeps,
  although the ring is full. */
  method SleepingOnFullPipe() returns (p: Pipe)
    ensures p.Valid() && p.readersAsleep && p.Full() && p.readopen && p.writeopen
  {
    p := new Pipe();
    var out, bytes := p.Read(1, false);
    var i;
    out, i := p.Write(seq(PIPESIZE + 1, _ => 0), 0, true);
    if i == PIPESIZE + 1 {
      assert false;
    }
  }
}
