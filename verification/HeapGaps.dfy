// The boundary heap of src/pmm.c as a value: the free blocks in list order and
// the live chunks, both as stretches of addresses.
module HeapGaps {

  const HEADER: int := 12   // sizeof(EMPTY_BLOCK): prev, next, size
  const WORD: int := 4      // the size word in front of a live chunk

  // A free block: where its header is and how many data bytes follow the header.
  datatype Gap = Gap(addr: int, size: int) {
    // BLOCK_DATA_END(block) + 1
    function End(): int { addr + HEADER + size }
  }

  // Live chunks: the address of the size word, and the requested bytes.
  type Chunks = map<int, int>

  function ChunkEnd(live: Chunks, a: int): int
    requires a in live
  {
    a + WORD + live[a]
  }

  ghost predicate GapCovers(f: seq<Gap>, x: int) {
    exists i :: 0 <= i < |f| && f[i].addr <= x < f[i].End()
  }

  ghost predicate LiveCovers(live: Chunks, x: int) {
    exists a :: a in live && a <= x < ChunkEnd(live, a)
  }

  // Address-ordered, and no free block touches the next one.
  ghost predicate Ordered(f: seq<Gap>, lo: int, hi: int) {
    && |f| > 0 && f[0].addr == lo
    && (forall i :: 0 <= i < |f| ==> 0 <= f[i].size && lo <= f[i].addr && f[i].End() <= hi)
    && (forall i, j :: 0 <= i < j < |f| ==> f[i].End() < f[j].addr)
  }

  ghost predicate ChunksApart(live: Chunks, lo: int, hi: int) {
    && (forall a :: a in live ==> lo <= a && HEADER <= WORD + live[a] && ChunkEnd(live, a) <= hi)
    && (forall a, b :: a in live && b in live && a < b ==> ChunkEnd(live, a) <= b)
  }

  ghost predicate GapsApart(f: seq<Gap>, live: Chunks) {
    forall i, a :: 0 <= i < |f| && a in live ==> f[i].End() <= a || ChunkEnd(live, a) <= f[i].addr
  }

  // Free blocks and live chunks tile lo..hi exactly.
  ghost predicate HeapOk(f: seq<Gap>, live: Chunks, lo: int, hi: int) {
    && Ordered(f, lo, hi)
    && ChunksApart(live, lo, hi)
    && GapsApart(f, live)
    && forall x :: lo <= x < hi ==> GapCovers(f, x) || LiveCovers(live, x)
  }

  // ------------------------------------------------------ the free list is determined

  lemma FreeIsNotLive(f: seq<Gap>, live: Chunks, lo: int, hi: int, x: int)
    requires HeapOk(f, live, lo, hi)
    ensures GapCovers(f, x) <==> lo <= x < hi && !LiveCovers(live, x)
  {}

  lemma SameSize(f: seq<Gap>, f': seq<Gap>, live: Chunks, lo: int, hi: int, i: int)
    requires HeapOk(f, live, lo, hi) && HeapOk(f', live, lo, hi)
    requires 0 <= i < |f| && i < |f'| && f[i].addr == f'[i].addr
    ensures f[i].size >= f'[i].size
  {
    if f[i].size < f'[i].size {
      var x := f[i].End();
      assert f'[i].addr <= x < f'[i].End();
      FreeIsNotLive(f', live, lo, hi, x);
      FreeIsNotLive(f, live, lo, hi, x);
      assert false;
    }
  }

  lemma SameNext(f: seq<Gap>, f': seq<Gap>, live: Chunks, lo: int, hi: int, i: int)
    requires HeapOk(f, live, lo, hi) && HeapOk(f', live, lo, hi)
    requires 0 <= i && i + 1 < |f| && i < |f'| && f[i] == f'[i]
    ensures i + 1 < |f'| && f'[i + 1].addr <= f[i + 1].addr
  {
    var x := f[i + 1].addr;
    assert f[i + 1].addr <= x < f[i + 1].End();
    FreeIsNotLive(f, live, lo, hi, x);
    FreeIsNotLive(f', live, lo, hi, x);
    var j :| 0 <= j < |f'| && f'[j].addr <= x < f'[j].End();
    assert j > i;
  }

  lemma {:induction false} SamePrefix(f: seq<Gap>, f': seq<Gap>, live: Chunks, lo: int, hi: int, n: nat)
    requires HeapOk(f, live, lo, hi) && HeapOk(f', live, lo, hi)
    requires n <= |f|
    ensures n <= |f'| && f[..n] == f'[..n]
  {
    hide GapCovers, LiveCovers, ChunksApart, GapsApart;
    if n > 0 {
      SamePrefix(f, f', live, lo, hi, n - 1);
      if n > 1 {
        assert f[n - 2] == f[..n - 1][n - 2] == f'[n - 2];
        SameNext(f, f', live, lo, hi, n - 2);
        SameNext(f', f, live, lo, hi, n - 2);
      }
      SameSize(f, f', live, lo, hi, n - 1);
      SameSize(f', f, live, lo, hi, n - 1);
    }
  }

  // The free list is a function of the live chunks: it does not matter in which
  // order chunks were allocated and freed.
  lemma GapsDetermined(f: seq<Gap>, f': seq<Gap>, live: Chunks, lo: int, hi: int)
    requires HeapOk(f, live, lo, hi) && HeapOk(f', live, lo, hi)
    ensures f == f'
  {
    SamePrefix(f, f', live, lo, hi, |f|);
    SamePrefix(f', f, live, lo, hi, |f'|);
  }

  // Once every chunk is freed, block0 is alone again with its first size.
  lemma AllFreed(f: seq<Gap>, live: Chunks, lo: int, hi: int)
    requires HeapOk(f, live, lo, hi) && live == map[]
    ensures f == [Gap(lo, hi - lo - HEADER)]
  {
    GapsDetermined(f, [Gap(lo, hi - lo - HEADER)], live, lo, hi);
  }

  // ------------------------------------------------------ allocation

  ghost predicate FirstFit(f: seq<Gap>, n: int, i: int) {
    && 0 <= i < |f| && n <= f[i].size
    && forall j :: 0 <= j < i ==> f[j].size < n
  }

  // The tail of free block i becomes a chunk.
  ghost predicate Carved(f: seq<Gap>, f': seq<Gap>, live: Chunks, live': Chunks, i: int, bytes: int) {
    && 0 <= i < |f| && HEADER <= bytes + WORD <= f[i].size
    && f' == f[i := Gap(f[i].addr, f[i].size - bytes - WORD)]
    && live' == live[f[i].End() - bytes - WORD := bytes]
  }

  lemma CarveChunks(f: seq<Gap>, f': seq<Gap>, live: Chunks, live': Chunks, lo: int, hi: int, i: int, bytes: int)
    requires Ordered(f, lo, hi) && ChunksApart(live, lo, hi) && GapsApart(f, live)
    requires Carved(f, f', live, live', i, bytes)
    ensures f'[i].End() !in live && ChunksApart(live', lo, hi)
  {
    var c := f'[i].End();
    assert forall a :: a in live ==> f[i].End() <= a || ChunkEnd(live, a) <= f[i].addr;
    assert forall a :: a in live' && a != c ==> a in live && live'[a] == live[a];
  }

  lemma CarveApart(f: seq<Gap>, f': seq<Gap>, live: Chunks, live': Chunks, lo: int, hi: int, i: int, bytes: int)
    requires Ordered(f, lo, hi) && ChunksApart(live, lo, hi) && GapsApart(f, live)
    requires Carved(f, f', live, live', i, bytes)
    ensures Ordered(f', lo, hi) && GapsApart(f', live')
  {
    var c := f'[i].End();
    forall j | 0 <= j < |f|
      ensures f'[j].addr == f[j].addr && f'[j].End() <= f[j].End()
      ensures f'[j].End() <= c || c + WORD + bytes <= f'[j].addr
    {
      assert if j < i then f[j].End() < f[i].addr else j > i ==> f[i].End() < f[j].addr;
    }
    assert forall a :: a in live' && a != c ==> a in live && live'[a] == live[a];
  }

  lemma Carve(f: seq<Gap>, f': seq<Gap>, live: Chunks, live': Chunks, lo: int, hi: int, i: int, bytes: int)
    requires HeapOk(f, live, lo, hi) && Carved(f, f', live, live', i, bytes)
    ensures f'[i].End() !in live
    ensures HeapOk(f', live', lo, hi)
  {
    CarveApart(f, f', live, live', lo, hi, i, bytes);
    CarveChunks(f, f', live, live', lo, hi, i, bytes);
    hide Ordered, ChunksApart, GapsApart;
    var c := f'[i].End();
    forall x | lo <= x < hi
      ensures GapCovers(f', x) || LiveCovers(live', x)
    {
      if GapCovers(f, x) {
        var j :| 0 <= j < |f| && f[j].addr <= x < f[j].End();
        assert if j == i && c <= x then c in live' && c <= x < ChunkEnd(live', c) else f'[j].addr <= x < f'[j].End();
      } else {
        assert LiveCovers(live, x);
        var a :| a in live && a <= x < ChunkEnd(live, a);
        assert a in live' && live'[a] == live[a];
      }
    }
  }

  // ------------------------------------------------------ release

  // Free block k is the last one in front of chunk a.
  ghost predicate InFront(f: seq<Gap>, a: int, k: int) {
    && 0 <= k < |f| && f[k].addr < a
    && (k + 1 < |f| ==> a <= f[k + 1].addr)
  }

  // Releasing chunk a behind block k: free blocks lo..hi of the list and the
  // chunk become the one block g. It absorbs block k when k ends at a, and
  // block k+1 when that starts at the end of the chunk.
  ghost predicate Fused(f: seq<Gap>, live: Chunks, a: int, k: int, from: int, to: int, g: Gap) {
    && a in live && InFront(f, a, k)
    && from == (if f[k].End() == a then k else k + 1)
    && to == (if k + 1 < |f| && f[k + 1].addr == ChunkEnd(live, a) then k + 2 else k + 1)
    && g.addr == (if from == k then f[k].addr else a)
    && g.End() == (if to == k + 2 then f[k + 1].End() else ChunkEnd(live, a))
  }

  // f' is f with blocks from..to replaced by g.
  ghost predicate Spliced(f: seq<Gap>, f': seq<Gap>, from: int, to: int, g: Gap) {
    && 0 <= from <= to <= |f| && |f'| == |f| - to + from + 1
    && f'[from] == g
    && (forall i :: 0 <= i < from ==> f'[i] == f[i])
    && (forall i :: to <= i < |f| ==> f'[i - to + from + 1] == f[i])
    && (forall i :: from < i < |f'| ==> f'[i] == f[i + to - from - 1])
  }

  lemma FuseNeighbours(f: seq<Gap>, live: Chunks, lo: int, hi: int, a: int, k: int, from: int, to: int, g: Gap)
    requires Ordered(f, lo, hi) && ChunksApart(live, lo, hi) && GapsApart(f, live)
    requires Fused(f, live, a, k, from, to, g)
    ensures 0 <= g.size && lo <= g.addr && g.End() <= hi && (from == 0 ==> g.addr == lo)
    ensures forall i :: 0 <= i < from ==> f[i].End() < g.addr
    ensures forall i :: to <= i < |f| ==> g.End() < f[i].addr
  {
    assert f[k].End() <= a;
    assert k + 1 < |f| ==> ChunkEnd(live, a) <= f[k + 1].addr;
    forall i | 0 <= i < from
      ensures f[i].End() < g.addr
    {
      assert i < k ==> f[i].End() < f[k].addr;
    }
    forall i | to <= i < |f|
      ensures g.End() < f[i].addr
    {
      assert i > k + 1 ==> f[k + 1].End() < f[i].addr;
    }
  }

  lemma SpliceOrdered(f: seq<Gap>, f': seq<Gap>, lo: int, hi: int, from: int, to: int, g: Gap)
    requires Ordered(f, lo, hi) && Spliced(f, f', from, to, g)
    requires 0 <= g.size && lo <= g.addr && g.End() <= hi && (from == 0 ==> g.addr == lo)
    requires forall i :: 0 <= i < from ==> f[i].End() < g.addr
    requires forall i :: to <= i < |f| ==> g.End() < f[i].addr
    ensures Ordered(f', lo, hi)
  {
    forall i, j | 0 <= i < j < |f'|
      ensures f'[i].End() < f'[j].addr
    {
      var i' := if i <= from then i else i + to - from - 1;
      var j' := if j <= from then j else j + to - from - 1;
      assert i != from ==> f'[i] == f[i'];
      assert j != from ==> f'[j] == f[j'];
    }
  }

  lemma FusedApart(f: seq<Gap>, live: Chunks, lo: int, hi: int, a: int, k: int, from: int, to: int, g: Gap, b: int)
    requires ChunksApart(live, lo, hi) && GapsApart(f, live)
    requires Fused(f, live, a, k, from, to, g) && b in live && b != a
    ensures g.End() <= b || ChunkEnd(live, b) <= g.addr
  {
    assert ChunkEnd(live, a) <= b || ChunkEnd(live, b) <= a;
    assert f[k].End() <= b || ChunkEnd(live, b) <= f[k].addr;
    assert k + 1 < |f| ==> f[k + 1].End() <= b || ChunkEnd(live, b) <= f[k + 1].addr;
  }

  lemma FuseApart(f: seq<Gap>, f': seq<Gap>, live: Chunks, lo: int, hi: int, a: int, k: int, from: int, to: int, g: Gap)
    requires ChunksApart(live, lo, hi) && GapsApart(f, live)
    requires Fused(f, live, a, k, from, to, g) && Spliced(f, f', from, to, g)
    ensures GapsApart(f', live - {a})
  {
    forall i, b | 0 <= i < |f'| && b in live - {a}
      ensures f'[i].End() <= b || ChunkEnd(live - {a}, b) <= f'[i].addr
    {
      FusedApart(f, live, lo, hi, a, k, from, to, g, b);
      hide Fused, ChunksApart;
      if i != from {
        assert f'[i] == f[if i < from then i else i + to - from - 1];
      }
    }
  }

  lemma FuseKeepsGaps(f: seq<Gap>, f': seq<Gap>, live: Chunks, a: int, k: int, from: int, to: int, g: Gap, x: int)
    requires Fused(f, live, a, k, from, to, g) && Spliced(f, f', from, to, g)
    requires GapCovers(f, x)
    requires f[k].End() <= a && forall i :: 0 <= i < |f| ==> 0 <= f[i].size
    requires HEADER <= WORD + live[a]
    ensures GapCovers(f', x)
  {
    var j :| 0 <= j < |f| && f[j].addr <= x < f[j].End();
    if from <= j < to {
      FusedHolds(f, live, a, k, from, to, g, j);
      hide Fused;
      assert f'[from].addr <= x < f'[from].End();
    } else {
      hide Fused;
      var j' := if j < from then j else j - to + from + 1;
      assert f'[j'] == f[j];
    }
  }

  // The new block takes in the blocks it replaces.
  lemma FusedHolds(f: seq<Gap>, live: Chunks, a: int, k: int, from: int, to: int, g: Gap, j: int)
    requires Fused(f, live, a, k, from, to, g) && from <= j < to
    requires 0 <= from <= to <= |f|
    requires f[k].End() <= a && forall i :: 0 <= i < |f| ==> 0 <= f[i].size
    requires HEADER <= WORD + live[a]
    ensures g.addr <= f[j].addr && f[j].End() <= g.End()
  {
    assert j == k || j == k + 1;
  }

  lemma FuseCovers(f: seq<Gap>, f': seq<Gap>, live: Chunks, a: int, k: int, from: int, to: int, g: Gap, x: int)
    requires Fused(f, live, a, k, from, to, g) && Spliced(f, f', from, to, g)
    requires GapCovers(f, x) || LiveCovers(live, x)
    requires f[k].End() <= a && forall i :: 0 <= i < |f| ==> 0 <= f[i].size
    requires HEADER <= WORD + live[a]
    ensures GapCovers(f', x) || LiveCovers(live - {a}, x)
  {
    if GapCovers(f, x) {
      FuseKeepsGaps(f, f', live, a, k, from, to, g, x);
    } else {
      var b :| b in live && b <= x < ChunkEnd(live, b);
      if b == a {
        assert f'[from].addr <= x < f'[from].End();
      } else {
        assert b in live - {a} && (live - {a})[b] == live[b];
      }
    }
  }

  lemma Fuse(f: seq<Gap>, f': seq<Gap>, live: Chunks, lo: int, hi: int, a: int, k: int, from: int, to: int, g: Gap)
    requires HeapOk(f, live, lo, hi)
    requires Fused(f, live, a, k, from, to, g) && Spliced(f, f', from, to, g)
    ensures HeapOk(f', live - {a}, lo, hi)
  {
    hide GapCovers, LiveCovers;
    FuseNeighbours(f, live, lo, hi, a, k, from, to, g);
    SpliceOrdered(f, f', lo, hi, from, to, g);
    FuseApart(f, f', live, lo, hi, a, k, from, to, g);
    forall x | lo <= x < hi
      ensures GapCovers(f', x) || LiveCovers(live - {a}, x)
    {
      FuseCovers(f, f', live, a, k, from, to, g, x);
    }
  }

  // Freeing the chunk just allocated restores the free list exactly.
  lemma AllocThenFree(f: seq<Gap>, f': seq<Gap>, f'': seq<Gap>, live: Chunks, live': Chunks,
                      lo: int, hi: int, i: int, bytes: int)
    requires HeapOk(f, live, lo, hi) && Carved(f, f', live, live', i, bytes)
    requires HeapOk(f'', live' - {f'[i].End()}, lo, hi)
    ensures f'' == f
  {
    Carve(f, f', live, live', lo, hi, i, bytes);
    assert live' - {f'[i].End()} == live;
    GapsDetermined(f, f'', live, lo, hi);
  }
}
