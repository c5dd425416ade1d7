// src/pmm.c: kmalloc and kfree over a word memory. The memory holds 32-bit words
// at byte addresses, and a store destroys every word it overlaps, so a header
// that could be overwritten by another header or chunk would be lost here too.
module Heap {
  import opened HeapGaps
  import opened Wrappers

  type Memory = map<int, int>

  function Store(m: Memory, a: int, v: int): (r: Memory)
    ensures a in r && r[a] == v
    ensures forall x :: x in m && (x <= a - WORD || a + WORD <= x) ==> x in r && r[x] == m[x]
  {
    (m - {a - 3, a - 2, a - 1, a + 1, a + 2, a + 3})[a := v]
  }

  // Header i of the list, as it lies in memory: prev, next, size.
  ghost predicate HeaderAt(m: Memory, f: seq<Gap>, i: int)
    requires 0 <= i < |f|
  {
    var a := f[i].addr;
    && 0 < a && a in m && a + 4 in m && a + 8 in m
    && m[a] == (if i == 0 then 0 else f[i - 1].addr)
    && m[a + 4] == (if i + 1 < |f| then f[i + 1].addr else 0)
    && m[a + 8] == f[i].size
  }

  // Two words that do not overlap.
  ghost predicate Apart(x: int, y: int) {
    x <= y - WORD || y + WORD <= x
  }

  // Headers keep clear of each other and of the size words of the chunks.
  ghost predicate Spaced(f: seq<Gap>, live: Chunks) {
    && (forall i, j :: 0 <= i < j < |f| ==> f[i].addr + HEADER <= f[j].addr)
    && (forall i, b :: 0 <= i < |f| && b in live ==> b + WORD <= f[i].addr || f[i].addr + HEADER <= b)
  }

  // The word at x lies in no header.
  ghost predicate ClearOfHeaders(f: seq<Gap>, x: int) {
    forall i :: 0 <= i < |f| ==> x + WORD <= f[i].addr || f[i].addr + HEADER <= x
  }

  // Memory holds the list f and the size words of the live chunks.
  ghost predicate Represents(m: Memory, f: seq<Gap>, live: Chunks) {
    && (forall i {:trigger HeaderAt(m, f, i)} :: 0 <= i < |f| ==> HeaderAt(m, f, i))
    && (forall b :: b in live ==> b in m && m[b] == live[b])
  }

  lemma OkIsSpaced(f: seq<Gap>, live: Chunks, lo: int, hi: int)
    requires HeapOk(f, live, lo, hi)
    ensures Spaced(f, live)
  {}

  ghost predicate OffHeader(used: int, x: int) {
    x + WORD <= used || used + HEADER <= x
  }

  // Between m and m' only words of the headers of f, or of one at used, may have changed.
  ghost predicate Undisturbed(m: Memory, m': Memory, f: seq<Gap>, used: int) {
    forall x :: x in m && ClearOfHeaders(f, x) && OffHeader(used, x) ==> x in m' && m'[x] == m[x]
  }

  // A word of the data of some chunk.
  ghost predicate ClientWord(live: Chunks, x: int) {
    exists b :: b in live && b + WORD <= x && x + WORD <= ChunkEnd(live, b)
  }

  // What the clients have stored is still there.
  ghost predicate DataKept(m: Memory, m': Memory, live: Chunks) {
    forall x :: x in m && ClientWord(live, x) ==> x in m' && m'[x] == m[x]
  }

  class KernelHeap {
    const base: int
    const size: int
    var mem: Memory
    ghost var free: seq<Gap>
    ghost var live: Chunks

    ghost predicate Valid()
      reads this
    {
      && 0 < base
      && HeapOk(free, live, base, base + size)
      && Represents(mem, free, live)
    }

    // heap_init: memory is zero but for the size of block0.
    constructor (base: int, size: int)
      requires 0 < base && HEADER <= size
      ensures Valid() && this.base == base && this.size == size
      ensures free == [Gap(base, size - HEADER)] && live == map[]
    {
      this.base, this.size := base, size;
      mem := Store(map[base := 0, base + 4 := 0], base + 8, size - HEADER);
      free, live := [Gap(base, size - HEADER)], map[];
    }

    method SetSize(block: int, s: int, ghost i: int)
      requires 0 <= i < |free| && block == free[i].addr
      requires Spaced(free, live) && Represents(mem, free, live)
      modifies this`mem, this`free
      ensures free == old(free)[i := Gap(block, s)]
      ensures Spaced(free, live) && Represents(mem, free, live)
      ensures Undisturbed(old(mem), mem, old(free), block)
    {
      hide Store;
      ghost var f := free;
      assert HeaderAt(mem, f, i);
      mem := Store(mem, block + 8, s);
      free := free[i := Gap(block, s)];
      forall j | 0 <= j < |free|
        ensures HeaderAt(mem, free, j)
      {
        assert HeaderAt(old(mem), f, j);
        assert j != i ==> f[j].addr + HEADER <= block || block + HEADER <= f[j].addr;
      }
    }

    method DelNode(block: int, ghost i: int)
      requires 1 <= i < |free| && block == free[i].addr
      requires Spaced(free, live) && Represents(mem, free, live)
      modifies this`mem, this`free
      ensures free == old(free)[..i] + old(free)[i + 1..]
      ensures Spaced(free, live) && Represents(mem, free, live)
      ensures Undisturbed(old(mem), mem, old(free), block)
    {
      hide Spaced, Unlinked;
      ghost var f := free;
      HeadersAround(mem, f, live, i);
      SpacedNext(f, live, i - 1);
      SpacedNext(f, live, i);
      var prev := mem[block];
      UnlinkWrites(prev, mem[block + 4]);
      free := free[..i] + free[i + 1..];
      RemoveSpaced(f, live, i);
      forall j | 0 <= j < |free|
        ensures HeaderAt(mem, free, j)
      {
        HeaderUnlinked(old(mem), mem, f, live, i, j);
      }
      UnlinkKeeps(old(mem), mem, f, live, i);
    }

    // The two writes of del_node.
    method UnlinkWrites(prev: int, next: int)
      requires next != 0 ==> prev + HEADER <= next
      modifies this`mem
      ensures Unlinked(old(mem), mem, prev, next)
    {
      mem := Store(mem, prev + 4, next);
      if next != 0 {
        mem := Store(mem, next, prev);
      }
    }

    // The search of kmalloc: the first free block with room for n bytes, or 0.
    method FindFit(n: int) returns (block: int, ghost i: int)
      requires Valid()
      ensures 0 <= i <= |free| && block == if i < |free| then free[i].addr else 0
      ensures forall j :: 0 <= j < i ==> free[j].size < n
      ensures i < |free| ==> n <= free[i].size
      ensures block == 0 <==> i == |free|
    {
      block, i := base, 0;
      assert HeaderAt(mem, free, 0);
      while block != 0 && mem[block + 8] < n
        invariant 0 <= i <= |free|
        invariant block == if i < |free| then free[i].addr else 0
        invariant i < |free| ==> HeaderAt(mem, free, i)
        invariant forall j :: 0 <= j < i ==> free[j].size < n
        decreases |free| - i
      {
        block := mem[block + 4];
        i := i + 1;
        assert i < |free| ==> HeaderAt(mem, free, i);
      }
    }

    // *(int*)real_alloc = byte
    method StoreChunk(a: int, byte: int)
      requires a !in live && Spaced(free, live[a := byte]) && Represents(mem, free, live)
      requires forall b :: b in live ==> Apart(a, b)
      modifies this`mem, this`live
      ensures live == old(live)[a := byte]
      ensures Represents(mem, free, live)
      ensures forall x :: x in old(mem) && Apart(a, x) ==> x in mem && mem[x] == old(mem)[x]
    {
      hide Store;
      mem := Store(mem, a, byte);
      live := live[a := byte];
      forall j | 0 <= j < |free|
        ensures HeaderAt(mem, free, j)
      {
        assert HeaderAt(old(mem), free, j);
        assert a in live;
      }
    }

    // The second half of kmalloc: the tail of the block found becomes the chunk.
    method CarveTail(block: int, byte: int, ghost i: int) returns (realAlloc: int)
      requires Valid() && 0 <= i < |free| && block == free[i].addr
      requires HEADER <= byte + WORD <= free[i].size
      modifies this`mem, this`free, this`live
      ensures Valid()
      ensures Carved(old(free), free, old(live), live, i, byte) && realAlloc == free[i].End()
      ensures DataKept(old(mem), mem, old(live))
    {
      hide Store, HeapOk, Spaced;
      var realByte := byte + 4;
      assert HeaderAt(mem, free, i);
      realAlloc := block + HEADER + mem[block + 8] - realByte;
      ghost var f', live' := free[i := Gap(block, free[i].size - realByte)], live[realAlloc := byte];
      Carve(free, f', live, live', base, base + size, i, byte);
      CarveSpaced(free, f', live, live', base, base + size, i, byte);
      StoreChunk(realAlloc, byte);
      assert HeaderAt(mem, free, i);
      SetSize(block, mem[block + 8] - realByte, i);
      CarveKeepsData(old(free), free, old(live), live, base, base + size, i, byte);
    }

    method Kmalloc(byte: int) returns (r: Option<int>)
      requires Valid() && -WORD <= byte
      modifies this`mem, this`free, this`live
      ensures Valid()
      ensures byte + WORD < HEADER ==> r == Some(0) && free == old(free) && live == old(live)
      ensures byte + WORD >= HEADER ==>
        (r.None? <==> forall i :: 0 <= i < |old(free)| ==> old(free)[i].size < byte + WORD)
      ensures r.None? ==> free == old(free) && live == old(live)
      ensures DataKept(old(mem), mem, old(live))
      ensures r.Some? && byte + WORD >= HEADER ==> exists i ::
        && FirstFit(old(free), byte + WORD, i)
        && Carved(old(free), free, old(live), live, i, byte)
        && old(free)[i].size >= byte + WORD
        && (forall j :: 0 <= j < i ==> old(free)[j].size < byte + WORD)
        && r.value + byte == old(free)[i].addr + HEADER + old(free)[i].size
        && free == old(free)[i := Gap(old(free)[i].addr, old(free)[i].size - byte - WORD)]
        && live == old(live)[r.value - WORD := byte]
    {
      if byte + 4 < HEADER { return Some(0); }
      var realByte := byte + 4;
      var block, i := FindFit(realByte);
      if block == 0 { return None; }
      hide HeapOk, Represents;
      assert FirstFit(free, realByte, i);
      var realAlloc := CarveTail(block, byte, i);
      r := Some(realAlloc + 4);
    }

    // The search of kfree: the last free block in front of the chunk.
    method FindBefore(used: int) returns (block: int, ghost k: int)
      requires Valid() && used in live
      ensures 0 <= k < |free| && block == free[k].addr && InFront(free, used, k)
    {
      block, k := base, 0;
      ChunkBehindBase(free, live, base, base + size, used);
      assert HeaderAt(mem, free, 0);
      while mem[block + 4] != 0 && mem[block + 4] < used
        invariant 0 <= k < |free| && block == free[k].addr < used
        invariant HeaderAt(mem, free, k)
        decreases |free| - k
      {
        block := mem[block + 4];
        k := k + 1;
        assert HeaderAt(mem, free, k);
      }
    }

    // A left neighbour takes the chunk in, and then the next block if it now touches that.
    method Extend(block: int, usedSize: int, ghost k: int, ghost to: int, ghost g: Gap)
      requires 0 <= k < |free| && block == free[k].addr && g.addr == block
      requires Spaced(free, live) && Represents(mem, free, live)
      requires 0 <= free[k].size && 0 <= usedSize
      requires k + 1 < |free| ==> free[k].End() + usedSize <= free[k + 1].addr
      requires to == if k + 1 < |free| && free[k].End() + usedSize == free[k + 1].addr then k + 2 else k + 1
      requires g.End() == if to == k + 2 then free[k + 1].End() else free[k].End() + usedSize
      modifies this`mem, this`free
      ensures Represents(mem, free, live)
      ensures free == old(free)[..k] + [g] + old(free)[to..]
      ensures Undisturbed(old(mem), mem, old(free), block)
    {
      hide Spaced;
      ghost var f := free;
      assert HeaderAt(mem, free, k);
      SetSize(block, mem[block + 8] + usedSize, k);
      assert HeaderAt(mem, free, k) && (k + 1 < |free| ==> HeaderAt(mem, free, k + 1));
      assert free[k + 1..] == f[k + 1..];
      if block + HEADER + mem[block + 8] == mem[block + 4] {
        SetSize(block, mem[block + 8] + (mem[mem[block + 4] + 8] + HEADER), k);
        assert HeaderAt(mem, free, k);
        DelNode(mem[block + 4], k + 1);
        assert f[k := g][..k + 1] == f[..k] + [g];
      } else {
        assert free == f[..k] + [g] + f[k + 1..];
      }
    }

    // No left neighbour: the chunk becomes a block of its own, which takes in the
    // next block if it touches that.
    method Insert(block: int, used: int, usedSize: int, ghost k: int, ghost to: int, ghost g: Gap)
      requires 0 <= k < |free| && block == free[k].addr && g.addr == used && HEADER <= usedSize && 0 < used
      requires Spaced(free, live) && Represents(mem, free, live)
      requires ClearOfHeaders(free, used + 8) && forall b :: b in live ==> Apart(b, used + 8)
      requires k + 1 < |free| ==> used + usedSize <= free[k + 1].addr
      requires to == if k + 1 < |free| && used + usedSize == free[k + 1].addr then k + 2 else k + 1
      requires g.End() == if to == k + 2 then free[k + 1].End() else used + usedSize
      requires Spaced(free[..k + 1] + [g] + free[to..], live)
      modifies this`mem, this`free
      ensures Represents(mem, free, live)
      ensures free == old(free)[..k + 1] + [g] + old(free)[to..]
      ensures Undisturbed(old(mem), mem, old(free), used)
    {
      hide Spaced;
      ghost var f := free;
      assert HeaderAt(mem, free, k) && (k + 1 < |free| ==> HeaderAt(mem, free, k + 1));
      StoreSize(used, usedSize - HEADER);
      assert HeaderAt(mem, free, k) && (k + 1 < |free| ==> HeaderAt(mem, free, k + 1));
      if mem[block + 4] == used + usedSize {
        StoreSize(used, mem[used + 8] + (mem[mem[block + 4] + 8] + HEADER));
        assert HeaderAt(mem, free, k);
        DelNode(mem[block + 4], k + 1);
        assert free[..k + 1] == f[..k + 1] && free[k + 1..] == f[k + 2..];
      }
      InsertNode(block, used, k, g.size);
    }

    // new->size = ...; the header it belongs to is not on the list yet.
    method StoreSize(used: int, s: int)
      requires Represents(mem, free, live)
      requires ClearOfHeaders(free, used + 8) && forall b :: b in live ==> Apart(b, used + 8)
      modifies this`mem
      ensures Represents(mem, free, live) && used + 8 in mem && mem[used + 8] == s
      ensures Undisturbed(old(mem), mem, free, used)
    {
      hide Store;
      mem := Store(mem, used + 8, s);
      forall j | 0 <= j < |free|
        ensures HeaderAt(mem, free, j)
      {
        assert HeaderAt(old(mem), free, j);
      }
    }

    // The two branches of kfree: the chunk is joined to its left neighbour or becomes a block.
    method Join(block: int, used: int, usedSize: int, ghost k: int, ghost from: int, ghost to: int, ghost g: Gap)
      requires Planned(free, used, usedSize, k, from, to, g) && block == free[k].addr
      requires Spaced(free, live) && Represents(mem, free, live)
      requires ClearOfHeaders(free, used + 8) && forall b :: b in live ==> Apart(b, used + 8)
      requires Spaced(free[..from] + [g] + free[to..], live)
      modifies this`mem, this`free
      ensures Represents(mem, free, live)
      ensures free == old(free)[..from] + [g] + old(free)[to..]
      ensures Undisturbed(old(mem), mem, old(free), if from == k then block else used)
    {
      hide Spaced, Represents, ClearOfHeaders, Undisturbed;
      HeaderOf(mem, free, live, k);
      if block + HEADER + mem[block + 8] == used {
        Extend(block, usedSize, k, to, g);
      } else {
        Insert(block, used, usedSize, k, to, g);
      }
    }

    method Kfree(pt: int)
      requires Valid() && pt - WORD in live
      modifies this`mem, this`free, this`live
      ensures Valid() && live == old(live) - {pt - WORD}
      ensures DataKept(old(mem), mem, live)
    {
      hide Store, HeapOk, Spaced, ClearOfHeaders, Undisturbed, DataKept, Represents, Planned;
      var used := pt - 4;
      ChunkSize(mem, free, live, used);
      var usedSize := mem[used] + 4;
      ghost var f, chunks := free, live;
      var block, k := FindBefore(used);
      ghost var from, to, g := ReleasePlan(f, chunks, base, base + size, used, k);
      FewerChunks(mem, f, chunks, used);
      live := live - {used};
      PlanBounds(f, used, usedSize, k, from, to, g);
      Join(block, used, usedSize, k, from, to, g);
      FreeKeepsData(old(mem), mem, f, chunks, base, base + size, used, if from == k then block else used);
    }

    // The four link writes of kfree for a new header.
    method WriteLinks(block: int, used: int, next: int)
      requires block + HEADER <= used && (next != 0 ==> used + HEADER <= next)
      modifies this`mem
      ensures LinkedIn(old(mem), mem, block, used, next)
    {
      mem := Store(mem, used, block);
      mem := Store(mem, block + 4, used);
      mem := Store(mem, used + 4, next);
      if next != 0 {
        mem := Store(mem, next, used);
      }
    }

    // Links the new header, whose size word is set, between block k and its successor.
    method InsertNode(block: int, used: int, ghost k: int, ghost s: int)
      requires 0 <= k < |free| && block == free[k].addr && 0 < used
      requires Represents(mem, free, live)
      requires Spaced(free[..k + 1] + [Gap(used, s)] + free[k + 1..], live)
      requires used + 8 in mem && mem[used + 8] == s
      modifies this`mem, this`free
      ensures free == old(free)[..k + 1] + [Gap(used, s)] + old(free)[k + 1..]
      ensures Represents(mem, free, live)
      ensures Undisturbed(old(mem), mem, old(free), used)
    {
      hide Spaced;
      ghost var f, f' := free, free[..k + 1] + [Gap(used, s)] + free[k + 1..];
      assert f'[k] == f[k] && (k + 1 < |f| ==> f'[k + 2] == f[k + 1]);
      SpacedNext(f', live, k);
      SpacedNext(f', live, k + 1);
      assert HeaderAt(mem, f, k) && (k + 1 < |f| ==> HeaderAt(mem, f, k + 1));
      WriteLinks(block, used, mem[block + 4]);
      free := f';
      forall j | 0 <= j < |f'|
        ensures HeaderAt(mem, f', j)
      {
        HeaderLinked(old(mem), mem, f, f', live, k, j);
      }
      forall b | b in live
        ensures b in mem && mem[b] == live[b]
      {
        SpacedChunk(f', live, k, b);
        SpacedChunk(f', live, k + 1, b);
        SpacedChunk(f', live, k + 2, b);
      }
    }

    // A client may write any word of a chunk it holds: the list and the sizes survive.
    method ClientStore(pt: int, offset: int, v: int)
      requires Valid() && pt - WORD in live
      requires 0 <= offset && offset + WORD <= live[pt - WORD]
      modifies this`mem
      ensures Valid() && pt + offset in mem && mem[pt + offset] == v
    {
      hide Store, HeapOk;
      ChunkBody(free, live, base, base + size, pt - WORD, pt + offset);
      mem := Store(mem, pt + offset, v);
      forall j | 0 <= j < |free|
        ensures HeaderAt(mem, free, j)
      {
        assert HeaderAt(old(mem), free, j);
      }
    }
  }

  lemma ClientClear(f: seq<Gap>, live: Chunks, lo: int, hi: int, x: int)
    requires HeapOk(f, live, lo, hi) && ClientWord(live, x)
    ensures ClearOfHeaders(f, x) && forall b :: b in live ==> Apart(b, x)
  {
    var b :| b in live && b + WORD <= x && x + WORD <= ChunkEnd(live, b);
    ChunkBody(f, live, lo, hi, b, x);
  }

  // The new chunk and the header of its block lie off all data.
  lemma CarveKeepsData(f: seq<Gap>, f': seq<Gap>, live: Chunks, live': Chunks, lo: int, hi: int, i: int, bytes: int)
    requires HeapOk(f, live, lo, hi) && HeapOk(f', live', lo, hi) && Carved(f, f', live, live', i, bytes)
    requires f'[i].End() !in live
    ensures forall x :: ClientWord(live, x) ==>
      ClearOfHeaders(f, x) && OffHeader(f[i].addr, x) && Apart(f'[i].End(), x)
  {
    hide HeapOk;
    forall x | ClientWord(live, x)
      ensures ClearOfHeaders(f, x) && OffHeader(f[i].addr, x) && Apart(f'[i].End(), x)
    {
      var b :| b in live && b + WORD <= x && x + WORD <= ChunkEnd(live, b);
      assert b in live' && live'[b] == live[b];
      ClientClear(f, live, lo, hi, x);
      ClientClear(f', live', lo, hi, x);
    }
  }

  lemma FreeKeepsData(m: Memory, m': Memory, f: seq<Gap>, live: Chunks, lo: int, hi: int, a: int, at: int)
    requires HeapOk(f, live, lo, hi) && a in live && Undisturbed(m, m', f, at)
    requires at == a || exists k :: 0 <= k < |f| && at == f[k].addr
    ensures DataKept(m, m', live - {a})
  {
    hide GapCovers, LiveCovers;
    forall x | x in m && ClientWord(live - {a}, x)
      ensures x in m' && m'[x] == m[x]
    {
      var b :| b in live - {a} && b + WORD <= x && x + WORD <= ChunkEnd(live - {a}, b);
      assert b in live && (live - {a})[b] == live[b];
      ChunkBody(f, live, lo, hi, b, x);
      assert b < a ==> ChunkEnd(live, b) <= a;
      assert a < b ==> ChunkEnd(live, a) <= b;
    }
  }

  lemma ChunkBody(f: seq<Gap>, live: Chunks, lo: int, hi: int, a: int, x: int)
    requires HeapOk(f, live, lo, hi) && a in live
    requires a + WORD <= x && x + WORD <= ChunkEnd(live, a)
    ensures ClearOfHeaders(f, x) && forall b :: b in live ==> Apart(b, x)
  {
    hide GapCovers, LiveCovers;
    forall b | b in live
      ensures Apart(b, x)
    {
      assert b < a ==> ChunkEnd(live, b) <= a;
      assert a < b ==> ChunkEnd(live, a) <= b;
    }
  }

  // What the four link writes do to memory.
  ghost predicate LinkedIn(m: Memory, m': Memory, block: int, used: int, next: int) {
    && used in m' && m'[used] == block
    && block + 4 in m' && m'[block + 4] == used
    && used + 4 in m' && m'[used + 4] == next
    && (next != 0 ==> next in m' && m'[next] == used)
    && forall x :: x in m && Apart(x, used) && Apart(x, block + 4) && Apart(x, used + 4)
                   && (next != 0 ==> Apart(x, next)) ==>
         x in m' && m'[x] == m[x]
  }

  lemma HeaderLinked(m: Memory, m': Memory, f: seq<Gap>, f': seq<Gap>, live: Chunks, k: int, j: int)
    requires Represents(m, f, live) && 0 <= k < |f| && 0 <= j < |f'| == |f| + 1
    requires f' == f[..k + 1] + [f'[k + 1]] + f[k + 1..] && Spaced(f', live)
    requires LinkedIn(m, m', f[k].addr, f'[k + 1].addr, if k + 1 < |f| then f[k + 1].addr else 0)
    requires 0 < f'[k + 1].addr && f'[k + 1].addr + 8 in m && m[f'[k + 1].addr + 8] == f'[k + 1].size
    ensures HeaderAt(m', f', j)
  {
    hide Spaced;
    forall i | 0 <= i < |f'|
      ensures i <= k ==> f'[i] == f[i]
      ensures i > k + 1 ==> f'[i] == f[i - 1]
    {}
    assert HeaderAt(m, f, k) && (k + 1 < |f| ==> HeaderAt(m, f, k + 1));
    assert j != k + 1 ==> HeaderAt(m, f, if j <= k then j else j - 1);
    SpacedPair(f', live, k, k + 1);
    SpacedPair(f', live, k + 1, k + 2);
    SpacedPair(f', live, k, k + 2);
    SpacedPair(f', live, k, j);
    SpacedPair(f', live, k + 1, j);
    SpacedPair(f', live, k + 2, j);
  }

  // What the writes of del_node do to memory.
  ghost predicate Unlinked(m: Memory, m': Memory, prev: int, next: int) {
    && prev + 4 in m' && m'[prev + 4] == next
    && (next != 0 ==> next in m' && m'[next] == prev)
    && forall x :: x in m && Apart(x, prev + 4) && (next != 0 ==> Apart(x, next)) ==> x in m' && m'[x] == m[x]
  }

  // The list without block i, where its neighbours stand in m.
  ghost predicate WithoutNode(m: Memory, m': Memory, f: seq<Gap>, live: Chunks, i: int) {
    && Represents(m, f, live) && Spaced(f, live) && 1 <= i < |f|
    && Unlinked(m, m', f[i - 1].addr, if i + 1 < |f| then f[i + 1].addr else 0)
  }

  lemma HeaderUnlinked(m: Memory, m': Memory, f: seq<Gap>, live: Chunks, i: int, j: int)
    requires WithoutNode(m, m', f, live, i) && 0 <= j < |f| - 1
    ensures HeaderAt(m', f[..i] + f[i + 1..], j)
  {
    hide Spaced;
    var j' := if j < i then j else j + 1;
    assert HeaderAt(m, f, j') && (f[..i] + f[i + 1..])[j] == f[j'];
    SpacedPair(f, live, i - 1, i);
    SpacedPair(f, live, i, i + 1);
    SpacedPair(f, live, i - 1, i + 1);
    SpacedPair(f, live, i - 1, j');
    SpacedPair(f, live, i + 1, j');
  }

  lemma UnlinkKeeps(m: Memory, m': Memory, f: seq<Gap>, live: Chunks, i: int)
    requires WithoutNode(m, m', f, live, i)
    ensures forall b :: b in live ==> b in m' && m'[b] == live[b]
    ensures Undisturbed(m, m', f, f[i].addr)
  {
    hide Spaced;
    forall b | b in live
      ensures b in m' && m'[b] == live[b]
    {
      SpacedChunk(f, live, i - 1, b);
      SpacedChunk(f, live, i + 1, b);
    }
  }

  // Where a chunk of usedSize bytes behind block k goes: the blocks from..to become g.
  ghost predicate Planned(f: seq<Gap>, used: int, usedSize: int, k: int, from: int, to: int, g: Gap) {
    && 0 <= k < |f| && 0 <= from <= to <= |f| && 0 < used && HEADER <= usedSize && 0 <= f[k].size
    && f[k].End() <= used && (k + 1 < |f| ==> used + usedSize <= f[k + 1].addr)
    && from == (if f[k].End() == used then k else k + 1)
    && to == (if k + 1 < |f| && f[k + 1].addr == used + usedSize then k + 2 else k + 1)
    && g.addr == (if from == k then f[k].addr else used)
    && g.End() == (if to == k + 2 then f[k + 1].End() else used + usedSize)
  }

  lemma PlanBounds(f: seq<Gap>, used: int, usedSize: int, k: int, from: int, to: int, g: Gap)
    requires Planned(f, used, usedSize, k, from, to, g)
    ensures 0 <= k < |f| && 0 <= from <= to <= |f|
  {}

  // All that the release of chunk a behind block k needs to know.
  lemma ReleasePlan(f: seq<Gap>, live: Chunks, lo: int, hi: int, a: int, k: int) returns (from: int, to: int, g: Gap)
    requires 0 < lo && HeapOk(f, live, lo, hi) && a in live && InFront(f, a, k)
    ensures Planned(f, a, live[a] + WORD, k, from, to, g) && 0 <= from <= to <= |f|
    ensures HeapOk(f[..from] + [g] + f[to..], live - {a}, lo, hi)
    ensures Spaced(f[..from] + [g] + f[to..], live - {a}) && Spaced(f, live - {a})
    ensures ClearOfHeaders(f, a + 8) && forall b :: b in live - {a} ==> Apart(b, a + 8)
  {
    hide HeapOk, Spaced, Fused, ClearOfHeaders, Spliced;
    from, to, g := FusePlan(f, live, lo, hi, a, k);
    var f' := f[..from] + [g] + f[to..];
    MakeSpliced(f, from, to, g);
    Fuse(f, f', live, lo, hi, a, k, from, to, g);
    OkIsSpaced(f', live - {a}, lo, hi);
    ReleaseSpaced(f, live, lo, hi, a);
  }

  lemma ChunkSize(m: Memory, f: seq<Gap>, live: Chunks, a: int)
    requires Represents(m, f, live) && a in live
    ensures a in m && m[a] == live[a]
  {}

  lemma FewerChunks(m: Memory, f: seq<Gap>, live: Chunks, a: int)
    requires Represents(m, f, live) && a in live
    ensures Represents(m, f, live - {a})
  {}

  lemma HeaderOf(m: Memory, f: seq<Gap>, live: Chunks, k: int)
    requires Represents(m, f, live) && 0 <= k < |f|
    ensures HeaderAt(m, f, k)
  {}

  lemma MakeSpliced(f: seq<Gap>, from: int, to: int, g: Gap)
    requires 0 <= from <= to <= |f|
    ensures Spliced(f, f[..from] + [g] + f[to..], from, to, g)
  {}

  // Where the released chunk goes, and what it fuses with.
  lemma FusePlan(f: seq<Gap>, live: Chunks, lo: int, hi: int, a: int, k: int) returns (from: int, to: int, g: Gap)
    requires HeapOk(f, live, lo, hi) && a in live && InFront(f, a, k)
    ensures Fused(f, live, a, k, from, to, g)
    ensures 0 <= from <= to <= |f|
    ensures f[k].End() <= a && (k + 1 < |f| ==> ChunkEnd(live, a) <= f[k + 1].addr)
    ensures lo < a && HEADER <= WORD + live[a] && 0 <= f[k].size
    ensures from == (if f[k].End() == a then k else k + 1)
    ensures to == (if k + 1 < |f| && f[k + 1].addr == ChunkEnd(live, a) then k + 2 else k + 1)
    ensures g.addr == (if from == k then f[k].addr else a)
    ensures g.End() == (if to == k + 2 then f[k + 1].End() else ChunkEnd(live, a))
  {
    hide GapCovers, LiveCovers;
    from := if f[k].End() == a then k else k + 1;
    to := if k + 1 < |f| && f[k + 1].addr == ChunkEnd(live, a) then k + 2 else k + 1;
    var start := if from == k then f[k].addr else a;
    var end := if to == k + 2 then f[k + 1].End() else ChunkEnd(live, a);
    g := Gap(start, end - start - HEADER);
  }

  lemma ReleaseSpaced(f: seq<Gap>, live: Chunks, lo: int, hi: int, a: int)
    requires HeapOk(f, live, lo, hi) && a in live
    ensures Spaced(f, live - {a}) && ClearOfHeaders(f, a + 8)
    ensures forall b :: b in live && b != a ==> Apart(b, a + 8)
  {
    hide GapCovers, LiveCovers;
    OkIsSpaced(f, live, lo, hi);
    forall b | b in live && b != a
      ensures Apart(b, a + 8)
    {
      assert ChunkEnd(live, a) <= b || ChunkEnd(live, b) <= a;
    }
  }

  lemma ChunkBehindBase(f: seq<Gap>, live: Chunks, lo: int, hi: int, a: int)
    requires HeapOk(f, live, lo, hi) && a in live
    ensures f[0].addr < a
  {
    hide GapCovers, LiveCovers;
  }

  lemma HeadersAround(m: Memory, f: seq<Gap>, live: Chunks, i: int)
    requires Represents(m, f, live) && 1 <= i < |f|
    ensures HeaderAt(m, f, i - 1) && HeaderAt(m, f, i)
    ensures i + 1 < |f| ==> HeaderAt(m, f, i + 1)
  {}

  lemma SpacedPair(f: seq<Gap>, live: Chunks, i: int, j: int)
    requires Spaced(f, live)
    ensures 0 <= i < |f| && 0 <= j < |f| && i != j ==>
      f[i].addr + HEADER <= f[j].addr || f[j].addr + HEADER <= f[i].addr
  {}

  lemma SpacedNext(f: seq<Gap>, live: Chunks, i: int)
    requires Spaced(f, live) && 0 <= i < |f|
    ensures i + 1 < |f| ==> f[i].addr + HEADER <= f[i + 1].addr
  {}

  lemma SpacedChunk(f: seq<Gap>, live: Chunks, i: int, b: int)
    requires Spaced(f, live) && b in live
    ensures 0 <= i < |f| ==> b + WORD <= f[i].addr || f[i].addr + HEADER <= b
  {}

  lemma RemoveSpaced(f: seq<Gap>, live: Chunks, i: int)
    requires Spaced(f, live) && 0 <= i < |f|
    ensures Spaced(f[..i] + f[i + 1..], live)
  {}

  lemma CarveSpaced(f: seq<Gap>, f': seq<Gap>, live: Chunks, live': Chunks, lo: int, hi: int, i: int, bytes: int)
    requires HeapOk(f, live, lo, hi) && HeapOk(f', live', lo, hi) && Carved(f, f', live, live', i, bytes)
    ensures Spaced(f, live) && Spaced(f', live') && Spaced(f, live')
    ensures f'[i].End() !in live && forall b :: b in live ==> Apart(f'[i].End(), b)
  {
    hide GapCovers, LiveCovers;
    var c := f'[i].End();
    forall b | b in live
      ensures b != c && Apart(c, b)
    {
      assert f[i].End() <= b || ChunkEnd(live, b) <= f[i].addr;
    }
    forall j | 0 <= j < |f|
      ensures f'[j].addr == f[j].addr
    {}
    OkIsSpaced(f, live, lo, hi);
    OkIsSpaced(f', live', lo, hi);
  }
}
