// src/fs/pipe.cc: a ring of 4096 bytes between one reader and one writer. A call
// is one step, from entering (or being woken) to returning or falling asleep, so
// any interleaving of reader and writer at their sleep points is a sequence of calls.
module Pipe {
  import opened Powers

  const RING: nat := 4096

  datatype ReadResult = Read(count: nat) | Eof | Again | ReaderSleeps
  datatype WriteResult = Wrote(count: nat) | Broken | WriterSleeps

  function Wrap(x: nat): (r: nat)
    ensures r < RING
  {
    x % RING
  }

  lemma WrapAdd(x: nat, y: nat)
    ensures Wrap(Wrap(x) + y) == Wrap(x + y)
    ensures x < RING ==> Wrap(x) == x
  {}

  lemma WrapDistinct(p: nat, i: nat, n: nat)
    requires i < n < RING
    ensures Wrap(p + i) != Wrap(p + n)
  {}

  // The n bytes of the ring from position p on, wrapping around.
  function Window(ring: seq<char>, p: nat, n: nat): (r: seq<char>)
    requires |ring| == RING
    ensures |r| == n && forall i :: 0 <= i < n ==> r[i] == ring[Wrap(p + i)]
  {
    seq(n, i requires 0 <= i => ring[Wrap(p + i)])
  }

  lemma WindowSplit(ring: seq<char>, p: nat, n: nat, k: nat)
    requires |ring| == RING && k <= n
    ensures Window(ring, p, n)[..k] == Window(ring, p, k)
    ensures Window(ring, p, n)[k..] == Window(ring, Wrap(p + k), n - k)
  {
    hide Wrap, Window;
    var rest := Window(ring, Wrap(p + k), n - k);
    forall i | 0 <= i < |rest|
      ensures rest[i] == Window(ring, p, n)[k + i]
    {
      WrapAdd(p + k, i);
    }
  }

  // Writing behind the window extends it and leaves it alone otherwise.
  lemma WindowStore(ring: seq<char>, ring': seq<char>, p: nat, n: nat, c: char)
    requires |ring| == RING && n < RING && ring' == ring[Wrap(p + n) := c]
    ensures Window(ring', p, n + 1) == Window(ring, p, n) + [c]
  {
    hide Wrap, Window;
    var w := Window(ring', p, n + 1);
    forall i | 0 <= i < |w|
      ensures w[i] == (Window(ring, p, n) + [c])[i]
    {
      if i < n {
        WrapDistinct(p, i, n);
      }
    }
  }

  class PipeInode {
    const ring: array<char>
    var avail: nat             // keyongshuju, the bytes that can be read
    var rpos: nat
    var wpos: nat
    var readerAsleep: bool     // on the inode's wait queue
    var writerAsleep: bool
    ghost var sent: seq<char>      // everything written so far
    ghost var received: seq<char>  // everything read so far

    ghost function Contents(): seq<char>
      requires ring.Length == RING
      reads this, ring
    {
      Window(ring[..], rpos, avail)
    }

    ghost predicate Valid()
      reads this, ring
    {
      && ring.Length == RING && rpos < RING && wpos < RING && avail <= RING
      && Wrap(rpos + avail) == wpos
      && sent == received + Contents()
      && (readerAsleep ==> avail == 0)
      && (writerAsleep ==> avail == RING)
    }

    // do_pipe
    constructor ()
      ensures Valid() && sent == [] && received == [] && fresh(ring)
      ensures !readerAsleep && !writerAsleep
    {
      ring := new char[RING];
      avail, rpos, wpos := 0, 0, 0;
      readerAsleep, writerAsleep := false, false;
      sent, received := [], [];
    }

    // wake_up(&inode->wait): whoever waits, reader or writer, is runnable again.
    method WakeUp()
      modifies this`readerAsleep, this`writerAsleep
      ensures !readerAsleep && !writerAsleep
    {
      readerAsleep, writerAsleep := false, false;
    }

    // The copying loop of read.
    method CopyOut(buf: array<char>, n: nat) returns (toread: nat)
      requires ring.Length == RING && rpos < RING && buf != ring && n <= buf.Length
      modifies buf
      ensures buf[..n] == Window(ring[..], rpos, n) && buf[n..] == old(buf[n..])
      ensures toread == Wrap(rpos + n)
    {
      hide Wrap, Window;
      toread := rpos;
      WrapAdd(rpos, 0);
      for i := 0 to n
        invariant toread == Wrap(rpos + i)
        invariant forall j :: 0 <= j < i ==> buf[j] == ring[Wrap(rpos + j)]
        invariant buf[n..] == old(buf[n..])
      {
        buf[i] := ring[toread];
        WrapAdd(rpos + i, 1);
        toread := Wrap(toread + 1);
      }
    }

    // The copying loop of write.
    method CopyIn(buf: array<char>, n: nat) returns (towrite: nat)
      requires ring.Length == RING && buf != ring && avail + n <= RING && n <= buf.Length
      requires wpos == Wrap(rpos + avail)
      modifies ring
      ensures Window(ring[..], rpos, avail + n) == Window(old(ring[..]), rpos, avail) + buf[..n]
      ensures towrite == Wrap(rpos + avail + n)
    {
      hide Wrap, Window;
      towrite := wpos;
      for i := 0 to n
        invariant towrite == Wrap(rpos + avail + i)
        invariant Window(ring[..], rpos, avail + i) == Window(old(ring[..]), rpos, avail) + buf[..i]
      {
        ghost var was := ring[..];
        ring[towrite] := buf[i];
        WindowStore(was, ring[..], rpos, avail + i, buf[i]);
        assert buf[..i + 1] == buf[..i] + [buf[i]];
        WrapAdd(rpos + avail + i, 1);
        towrite := Wrap(towrite + 1);
      }
    }

    method ReadStep(buf: array<char>, rlen: nat, writersGone: bool, nonblock: bool) returns (r: ReadResult)
      requires Valid() && !readerAsleep && buf != ring && rlen <= buf.Length
      modifies this, buf
      ensures Valid() && sent == old(sent)
      ensures old(avail) == 0 ==>
        && r == (if writersGone then Eof else if nonblock then Again else ReaderSleeps)
        && received == old(received) && readerAsleep == (r == ReaderSleeps) && writerAsleep == old(writerAsleep)
        && buf[..] == old(buf[..])
      ensures old(avail) > 0 ==>
        && r == Read(Min(old(avail), rlen))
        && received == old(received) + buf[..r.count] && buf[r.count..] == old(buf[r.count..])
        && buf[..r.count] == old(Contents())[..r.count] && Contents() == old(Contents())[r.count..]
        && !readerAsleep && !writerAsleep
    {
      hide Wrap, Window;
      if avail == 0 {
        if writersGone { return Eof; }
        if nonblock { return Again; }
        readerAsleep := true;
        return ReaderSleeps;
      }
      var n := Min(avail, rlen);
      WrapAdd(rpos + n, avail - n);
      WindowSplit(ring[..], rpos, avail, n);
      var toread := CopyOut(buf, n);
      received := received + buf[..n];
      avail := avail - n;
      rpos := toread;
      WakeUp();
      r := Read(n);
    }

    method WriteStep(buf: array<char>, wlen: nat, readersGone: bool, nonblock: bool) returns (r: WriteResult)
      requires Valid() && !writerAsleep && buf != ring && wlen <= buf.Length
      modifies this, ring
      ensures Valid() && received == old(received)
      ensures old(avail) == RING ==>
        && r == (if readersGone || nonblock then Broken else WriterSleeps)
        && sent == old(sent) && writerAsleep == (r == WriterSleeps) && readerAsleep == old(readerAsleep)
      ensures old(avail) < RING ==>
        && r == Wrote(Min(wlen, RING - old(avail)))
        && sent == old(sent) + buf[..r.count] && Contents() == old(Contents()) + buf[..r.count]
        && !readerAsleep && !writerAsleep
    {
      hide Wrap, Window;
      var room := RING - avail;
      if room == 0 {
        if readersGone { return Broken; }
        if nonblock { return Broken; }
        writerAsleep := true;
        return WriterSleeps;
      }
      var n := Min(wlen, room);
      var towrite := CopyIn(buf, n);
      wpos := towrite;
      avail := avail + n;
      sent := sent + buf[..n];
      WakeUp();
      r := Wrote(n);
    }

    // In every reachable state: what was read is a prefix of what was written, the
    // rest is in the ring, and reader and writer never sleep at the same time. A
    // sleeper can always be helped: the other side's next call transfers a byte.
    lemma Fifo()
      requires Valid()
      ensures received <= sent && sent[|received|..] == Contents()
      ensures !(readerAsleep && writerAsleep)
      ensures readerAsleep ==> received == sent && avail < RING
      ensures writerAsleep ==> |sent| == |received| + RING && avail > 0
    {}
  }
}
