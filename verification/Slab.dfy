// src/mm/slab.c: one cache of equal-sized objects. Every slab threads its free
// objects through an index array, and sits in one of three queues.
module Slab {
  import opened Lists
  import opened Powers

  const PAGE: nat := 4096
  const SLAB_HEADER: nat := 16   // sizeof(struct slab)

  // struct slab; the array is indexed by object, an entry names the next free object.
  datatype Slab = Slab(inuse: nat, free: nat, freelist: seq<nat>)

  // An object by its slab's address and its place in the slab.
  datatype Obj = Obj(slab: int, index: nat)

  // ------------------------------------------------------ the threaded free list

  // From `head`, the array leads through exactly the indices of c and then to the end mark.
  ghost predicate IsChain(fl: seq<nat>, head: nat, c: seq<nat>)
    decreases |c|
  {
    if c == [] then head == |fl|
    else head == c[0] && head < |fl| && IsChain(fl, fl[head], c[1..])
  }

  lemma {:induction false} ChainInRange(fl: seq<nat>, head: nat, c: seq<nat>)
    requires IsChain(fl, head, c)
    ensures forall x :: x in c ==> x < |fl|
    decreases |c|
  {
    if c != [] {
      ChainInRange(fl, fl[head], c[1..]);
      assert c == [c[0]] + c[1..];
    }
  }

  // Entries of objects that are not free may be overwritten.
  lemma {:induction false} ChainFrame(fl: seq<nat>, head: nat, c: seq<nat>, i: nat, v: nat)
    requires IsChain(fl, head, c) && i < |fl| && i !in c
    ensures IsChain(fl[i := v], head, c)
    decreases |c|
  {
    if c != [] {
      assert c == [c[0]] + c[1..];
      ChainFrame(fl, fl[head], c[1..], i, v);
    }
  }

  // Giving object i back puts it in front of the chain.
  lemma ChainPush(fl: seq<nat>, head: nat, c: seq<nat>, i: nat)
    requires IsChain(fl, head, c) && Distinct(c) && i < |fl| && i !in c
    ensures IsChain(fl[i := head], i, [i] + c) && Distinct([i] + c)
  {
    ChainFrame(fl, head, c, i, head);
  }

  lemma {:induction false} ChainFrom(fl: seq<nat>, i: nat, c: seq<nat>)
    requires i <= |fl| && forall j :: 0 <= j < |fl| ==> fl[j] == j + 1
    requires |c| == |fl| - i && forall k :: 0 <= k < |c| ==> c[k] == i + k
    ensures IsChain(fl, i, c)
    decreases |c|
  {
    if i < |fl| {
      ChainFrom(fl, i + 1, c[1..]);
    }
  }

  // The chain of a new slab: every object, once.
  lemma FreshChain(fl: seq<nat>) returns (c: seq<nat>)
    requires forall j :: 0 <= j < |fl| ==> fl[j] == j + 1
    ensures IsChain(fl, 0, c) && Distinct(c) && |c| == |fl|
    ensures forall i: nat :: i < |fl| ==> i in c
  {
    c := seq(|fl|, k requires 0 <= k => k);
    ChainFrom(fl, 0, c);
    forall i: nat | i < |fl|
      ensures i in c
    {
      assert c[i] == i;
    }
  }

  // ------------------------------------------------------ counting free slots

  // Free slots of the slabs of s, each having n objects.
  ghost function Slots(slabs: map<int, Slab>, s: seq<int>, n: nat): int
    requires forall i :: 0 <= i < |s| ==> s[i] in slabs
  {
    if s == [] then 0 else n - slabs[s[0]].inuse + Slots(slabs, s[1..], n)
  }

  lemma {:induction false} SlotsFrame(slabs: map<int, Slab>, slabs': map<int, Slab>, s: seq<int>, n: nat)
    requires forall i :: 0 <= i < |s| ==> s[i] in slabs && s[i] in slabs' && slabs'[s[i]].inuse == slabs[s[i]].inuse
    ensures Slots(slabs', s, n) == Slots(slabs, s, n)
  {
    if s != [] {
      SlotsFrame(slabs, slabs', s[1..], n);
    }
  }

  lemma {:induction false} SlotsUpdate(slabs: map<int, Slab>, s: seq<int>, n: nat, a: int, v: Slab)
    requires Distinct(s) && a in s && forall i :: 0 <= i < |s| ==> s[i] in slabs
    ensures Slots(slabs[a := v], s, n) == Slots(slabs, s, n) + slabs[a].inuse - v.inuse
  {
    if s[0] == a {
      TailMembers(s);
      SlotsFrame(slabs, slabs[a := v], s[1..], n);
    } else {
      TailMembers(s);
      SlotsUpdate(slabs, s[1..], n, a, v);
    }
  }

  // ------------------------------------------------------ the queues

  // Every slab is in exactly one queue; n objects a slab.
  ghost predicate InQueues(p: seq<int>, u: seq<int>, f: seq<int>, slabs: map<int, Slab>, n: nat) {
    && Distinct(p) && Distinct(u) && Distinct(f)
    && (forall s: int :: s in slabs <==> s in p || s in u || s in f)
    && (forall s :: s in p ==> s !in f && slabs[s].inuse < n)
    && (forall s :: s in u ==> slabs[s].inuse == n)
    && (forall s :: s in f ==> slabs[s].inuse == 0)
  }

  // With two objects or more to a slab, a slab of the partial queue has some in use.
  ghost predicate Started(p: seq<int>, slabs: map<int, Slab>, n: nat)
    requires forall s :: s in p ==> s in slabs
  {
    forall s :: s in p && n >= 2 ==> slabs[s].inuse > 0
  }

  lemma PartialHead(p: seq<int>, u: seq<int>, f: seq<int>, slabs: map<int, Slab>, n: nat)
    requires InQueues(p, u, f, slabs, n) && p != []
    ensures p[0] in slabs && slabs[p[0]].inuse < n
  {
    var s := p[0];
    assert s in p;
    assert slabs[s].inuse < n;
  }

  // The fresh slab taken when no partial one is left.
  lemma QueueFirst(u: seq<int>, f: seq<int>, slabs: map<int, Slab>, n: nat)
    requires InQueues([], u, f, slabs, n) && f != [] && n > 0
    ensures InQueues([f[0]], u, f[1..], slabs, n)
  {
    TailMembers(f);
  }

  lemma QueueNew(u: seq<int>, slabs: map<int, Slab>, slabs': map<int, Slab>, s: int, n: nat)
    requires InQueues([], u, [], slabs, n) && s !in slabs
    requires slabs'.Keys == slabs.Keys + {s} && slabs'[s].inuse == 0
    requires forall a :: a in slabs ==> slabs'[a] == slabs[a]
    ensures InQueues([], u, [s], slabs', n)
  {}

  // Only slab s differs, in its count of used objects.
  ghost predicate OnlyInuse(slabs: map<int, Slab>, slabs': map<int, Slab>, s: int) {
    && s in slabs && slabs'.Keys == slabs.Keys
    && forall a :: a in slabs && a != s ==> slabs'[a] == slabs[a]
  }

  lemma QueueUsed(p: seq<int>, u: seq<int>, f: seq<int>, slabs: map<int, Slab>, slabs': map<int, Slab>, n: nat)
    requires InQueues(p, u, f, slabs, n) && p != [] && Started(p[1..], slabs, n)
    requires OnlyInuse(slabs, slabs', p[0]) && slabs'[p[0]].inuse == slabs[p[0]].inuse + 1
    ensures slabs'[p[0]].inuse < n ==> InQueues(p, u, f, slabs', n) && Started(p, slabs', n)
    ensures slabs'[p[0]].inuse == n ==>
      InQueues(Remove(p, p[0]), [p[0]] + u, f, slabs', n) && Started(Remove(p, p[0]), slabs', n)
  {
    TailMembers(p);
    assert Remove(p, p[0]) == p[1..];
  }

  lemma QueueRefilled(p: seq<int>, u: seq<int>, f: seq<int>, slabs: map<int, Slab>, slabs': map<int, Slab>,
                      n: nat, s: int)
    requires InQueues(p, u, f, slabs, n) && Started(p, slabs, n) && n > 0
    requires OnlyInuse(slabs, slabs', s) && slabs[s].inuse == n && slabs'[s].inuse == n - 1
    ensures InQueues([s] + p, Remove(u, s), f, slabs', n) && Started([s] + p, slabs', n)
  {
    assert s in u && s !in p && s !in f;
    RemoveDistinct(u, s);
  }

  lemma QueueEmptied(p: seq<int>, u: seq<int>, f: seq<int>, slabs: map<int, Slab>, slabs': map<int, Slab>,
                     n: nat, s: int)
    requires InQueues(p, u, f, slabs, n) && Started(p, slabs, n)
    requires OnlyInuse(slabs, slabs', s) && slabs[s].inuse == 1 < n && slabs'[s].inuse == 0
    ensures InQueues(Remove(p, s), u, [s] + f, slabs', n) && Started(Remove(p, s), slabs', n)
  {
    assert s in p && s !in u && s !in f;
    RemoveDistinct(p, s);
  }

  lemma QueueStays(p: seq<int>, u: seq<int>, f: seq<int>, slabs: map<int, Slab>, slabs': map<int, Slab>, n: nat, s: int)
    requires InQueues(p, u, f, slabs, n) && Started(p, slabs, n)
    requires OnlyInuse(slabs, slabs', s) && slabs'[s].inuse + 1 == slabs[s].inuse && 0 < slabs'[s].inuse < n - 1
    ensures InQueues(p, u, f, slabs', n) && Started(p, slabs', n)
  {
    assert s in p && s !in u && s !in f;
  }

  class Cache {
    const objsize: nat
    const objnum: nat
    const order: nat
    var slabsPartial: seq<int>
    var slabsUsedout: seq<int>
    var slabsFresh: seq<int>
    var slabs: map<int, Slab>       // the slab descriptors, by address
    var pageSlab: map<int, int>     // page->lru.prev: the slab a page belongs to
    var freeObjs: int
    ghost var chain: map<int, seq<nat>>
    ghost var all: seq<int>

    // Header, index array and objects fit into the pages of one slab.
    ghost predicate Fits() {
      objsize > 0 && objnum > 0 && SLAB_HEADER + objnum * (objsize + 2) <= PAGE * Pow2(order)
    }

    function Objs(s: int): int {
      s + PAGE * Pow2(order) - objnum * objsize
    }

    function Addr(o: Obj): int {
      Objs(o.slab) + objsize * o.index
    }

    ghost predicate PagesOf(s: int)
      reads this`pageSlab
    {
      s % PAGE == 0 && forall p :: s / PAGE <= p < s / PAGE + Pow2(order) ==> p in pageSlab && pageSlab[p] == s
    }

    // The chain of slab s visits its objnum - inuse free objects once each.
    ghost predicate Threaded(s: int)
      requires s in slabs && s in chain
      reads this`slabs, this`chain
    {
      && |slabs[s].freelist| == objnum && slabs[s].inuse <= objnum
      && IsChain(slabs[s].freelist, slabs[s].free, chain[s])
      && Distinct(chain[s]) && |chain[s]| == objnum - slabs[s].inuse
    }

    ghost predicate SlabsOk()
      reads this`slabs, this`chain, this`pageSlab
    {
      && Fits()
      && chain.Keys == slabs.Keys
      && (forall s :: s in slabs ==> Threaded(s) && PagesOf(s))
      && (forall p :: p in pageSlab ==> pageSlab[p] in slabs && 0 <= p - pageSlab[p] / PAGE < Pow2(order))
    }

    ghost predicate Counted()
      reads this`slabs, this`all, this`freeObjs
    {
      && Distinct(all) && (forall s: int :: s in all <==> s in slabs)
      && freeObjs == Slots(slabs, all, objnum)
    }

    ghost predicate Valid()
      reads this
    {
      SlabsOk() && Counted() && InQueues(slabsPartial, slabsUsedout, slabsFresh, slabs, objnum)
      && Started(slabsPartial, slabs, objnum)
    }

    // The objects handed out and not given back.
    ghost function Live(): (r: set<Obj>)
      requires chain.Keys == slabs.Keys
      reads this`slabs, this`chain
      ensures forall o :: o in r <==> o.slab in slabs && o.index < objnum && o.index !in chain[o.slab]
    {
      set s, i: nat | s in slabs && 0 <= i < objnum && i !in chain[s] :: Obj(s, i)
    }

    constructor (objsize: nat, objnum: nat, order: nat)
      requires objsize > 0 && objnum > 0 && SLAB_HEADER + objnum * (objsize + 2) <= PAGE * Pow2(order)
      ensures Valid() && Live() == {} && freeObjs == 0
      ensures this.objsize == objsize && this.objnum == objnum && this.order == order
    {
      this.objsize, this.objnum, this.order := objsize, objnum, order;
      slabsPartial, slabsUsedout, slabsFresh := [], [], [];
      slabs, pageSlab, chain, all := map[], map[], map[], [];
      freeObjs := 0;
    }

    twostate lemma OthersThreaded(s: int)
      requires old(SlabsOk()) && slabs.Keys == chain.Keys
      requires forall a :: a in slabs && a != s ==>
        a in old(slabs) && a in old(chain) && slabs[a] == old(slabs)[a] && chain[a] == old(chain)[a]
      ensures forall a :: a in slabs && a != s ==> Threaded(a)
    {}

    lemma AllInSlabs()
      requires Counted()
      ensures forall i :: 0 <= i < |all| ==> all[i] in slabs
    {
      forall i | 0 <= i < |all|
        ensures all[i] in slabs
      {
        var s := all[i];
        assert s in all;
        assert s in slabs;
      }
    }

    // slab_alloc_one
    method AllocOne(s: int) returns (obj: int, ghost o: Obj)
      requires SlabsOk() && Counted() && s in slabs && slabs[s].inuse != objnum
      modifies this`slabs, this`chain, this`freeObjs
      ensures SlabsOk() && Counted()
      ensures o.slab == s && o !in old(Live()) && Live() == old(Live()) + {o} && obj == Addr(o)
      ensures slabs.Keys == old(slabs).Keys && slabs[s].inuse == old(slabs)[s].inuse + 1 <= objnum
      ensures forall a :: a in slabs && a != s ==> slabs[a] == old(slabs)[a]
      ensures [o.index] + chain[s] == old(chain[s]) && o.index == old(slabs[s].free)
      ensures obj == s + PAGE * Pow2(order) - objnum * objsize + objsize * o.index
      ensures freeObjs == old(freeObjs) - 1
    {
      hide Fits, PagesOf, Pow2, Slots;
      var sl := slabs[s];
      var freeid := sl.free;
      ghost var c := chain[s];
      o := Obj(s, freeid);
      obj := Objs(s) + objsize * freeid;
      TailMembers(c);
      AllInSlabs();
      SlotsUpdate(slabs, all, objnum, s, sl.(free := sl.freelist[freeid], inuse := sl.inuse + 1));
      slabs := slabs[s := sl.(free := sl.freelist[freeid], inuse := sl.inuse + 1)];
      chain := chain[s := c[1..]];
      freeObjs := freeObjs - 1;
      OthersThreaded(s);
      assert Live() == old(Live()) + {o};
    }

    // slab_free_one
    method FreeOne(s: int, tofree: nat)
      requires SlabsOk() && Counted() && s in slabs && tofree < objnum && tofree !in chain[s]
      modifies this`slabs, this`chain, this`freeObjs
      ensures SlabsOk() && Counted()
      ensures Live() == old(Live()) - {Obj(s, tofree)}
      ensures slabs.Keys == old(slabs).Keys && old(slabs)[s].inuse > 0
      ensures slabs[s].inuse == old(slabs)[s].inuse - 1 < objnum
      ensures forall a :: a in slabs && a != s ==> slabs[a] == old(slabs)[a]
      ensures chain[s] == [tofree] + old(chain[s]) && slabs[s].free == tofree
      ensures freeObjs == old(freeObjs) + 1
    {
      hide Fits, PagesOf, Pow2, Slots, IsChain, Distinct;
      var sl := slabs[s];
      ChainPush(sl.freelist, sl.free, chain[s], tofree);
      NotAllFree(sl.freelist, sl.free, chain[s], tofree);
      var sl' := sl.(freelist := sl.freelist[tofree := sl.free], free := tofree, inuse := sl.inuse - 1);
      AllInSlabs();
      SlotsUpdate(slabs, all, objnum, s, sl');
      slabs := slabs[s := sl'];
      chain := chain[s := [tofree] + chain[s]];
      freeObjs := freeObjs + 1;
      OthersThreaded(s);
      assert Live() == old(Live()) - {Obj(s, tofree)};
    }

    // What slab_queue_grow gets from the page allocator: pages no slab of the cache has.
    ghost predicate NewPages(s: int)
      reads this`pageSlab
    {
      s % PAGE == 0 && forall p :: s / PAGE <= p < s / PAGE + Pow2(order) ==> p !in pageSlab
    }

    // The index array of a new slab, each entry naming the next object.
    method InitFreelist() returns (fl: seq<nat>)
      ensures |fl| == objnum && forall j :: 0 <= j < |fl| ==> fl[j] == j + 1
    {
      fl := [];
      for i := 0 to objnum
        invariant |fl| == i && forall j :: 0 <= j < i ==> fl[j] == j + 1
      {
        fl := fl + [i + 1];
      }
    }

    // page_mark_slab for every page of the slab
    method MarkPages(s: int)
      requires NewPages(s)
      modifies this`pageSlab
      ensures PagesOf(s)
      ensures forall a :: old(PagesOf(a)) ==> PagesOf(a)
      ensures forall p :: p in pageSlab ==>
        if p in old(pageSlab) then pageSlab[p] == old(pageSlab)[p]
        else s / PAGE <= p < s / PAGE + Pow2(order) && pageSlab[p] == s
    {
      for i := 0 to Pow2(order)
        invariant forall p :: p in pageSlab <==> p in old(pageSlab) || s / PAGE <= p < s / PAGE + i
        invariant forall p :: p in pageSlab ==>
          pageSlab[p] == if s / PAGE <= p < s / PAGE + i then s else old(pageSlab)[p]
      {
        pageSlab := pageSlab[s / PAGE + i := s];
      }
      forall a | old(PagesOf(a))
        ensures PagesOf(a)
      {
        forall p | a / PAGE <= p < a / PAGE + Pow2(order)
          ensures p in pageSlab && pageSlab[p] == a
        {
          assert p in old(pageSlab) && old(pageSlab)[p] == a;
        }
      }
    }

    lemma NewSlabIsNew(s: int)
      requires SlabsOk() && NewPages(s)
      ensures s !in slabs
    {
      var p := s / PAGE;
      assert s in slabs ==> p in pageSlab;
    }

    // slab_queue_grow
    method Grow(s: int)
      requires SlabsOk() && Counted() && NewPages(s)
      modifies this`slabs, this`chain, this`all, this`pageSlab, this`slabsFresh, this`freeObjs
      ensures SlabsOk() && Counted()
      ensures s !in old(slabs) && slabs.Keys == old(slabs).Keys + {s} && slabs[s].inuse == 0 == slabs[s].free
      ensures forall a :: a in old(slabs) ==> slabs[a] == old(slabs)[a]
      ensures Live() == old(Live()) && freeObjs == old(freeObjs) + objnum
      ensures slabsFresh == [s] + old(slabsFresh)
    {
      hide Fits, Pow2, IsChain, Distinct, PagesOf, NewPages;
      NewSlabIsNew(s);
      var fl := InitFreelist();
      ghost var c := FreshChain(fl);
      MarkPages(s);
      AddSlab(s, fl, c);
    }

    // The new descriptor, its place in the fresh queue, and the count.
    method AddSlab(s: int, fl: seq<nat>, ghost c: seq<nat>)
      requires Fits() && Counted() && chain.Keys == slabs.Keys && s !in slabs && PagesOf(s)
      requires forall a :: a in slabs ==> Threaded(a) && PagesOf(a)
      requires forall p :: p in pageSlab ==>
        (pageSlab[p] in slabs || pageSlab[p] == s) && 0 <= p - pageSlab[p] / PAGE < Pow2(order)
      requires IsChain(fl, 0, c) && Distinct(c) && |c| == |fl| == objnum && forall i: nat :: i < objnum ==> i in c
      modifies this`slabs, this`chain, this`all, this`slabsFresh, this`freeObjs
      ensures SlabsOk() && Counted()
      ensures slabs == old(slabs)[s := Slab(0, 0, fl)]
      ensures Live() == old(Live()) && freeObjs == old(freeObjs) + objnum
      ensures slabsFresh == [s] + old(slabsFresh)
    {
      hide Fits, Pow2, IsChain, PagesOf;
      ghost var was, were := slabs, all;
      AllInSlabs();
      slabs := slabs[s := Slab(0, 0, fl)];
      chain := chain[s := c];
      all := [s] + all;
      SlotsFrame(was, slabs, were, objnum);
      slabsFresh := [s] + slabsFresh;
      freeObjs := freeObjs + objnum;
      assert all[1..] == were;
      forall a | a in slabs && a != s
        ensures Threaded(a)
      {
        assert old(Threaded(a));
      }
    }

    ghost predicate AllUsedOut()
      reads this`slabsPartial, this`slabsFresh
    {
      slabsPartial == [] == slabsFresh
    }

    // With neither a partial nor a fresh slab, a new one is made.
    method GrowIfNeeded(newSlab: int)
      requires Valid() && slabsPartial == [] && (slabsFresh == [] ==> NewPages(newSlab))
      modifies this`slabs, this`chain, this`all, this`pageSlab, this`slabsFresh, this`freeObjs
      ensures SlabsOk() && Counted() && InQueues([], slabsUsedout, slabsFresh, slabs, objnum)
      ensures Live() == old(Live()) && slabsFresh == if old(AllUsedOut()) then [newSlab] else old(slabsFresh)
      ensures
        if old(AllUsedOut()) then slabs[newSlab].free == 0 && freeObjs == old(freeObjs) + objnum
        else slabs == old(slabs) && freeObjs == old(freeObjs)
    {
      hide Threaded, PagesOf, Pow2, NewPages, InQueues;
      if slabsFresh == [] {
        ghost var was := slabs;
        Grow(newSlab);
        QueueNew(slabsUsedout, was, slabs, newSlab, objnum);
        assert slabsFresh == [newSlab];
      }
    }

    // The first half of kmem_cache_alloc: a slab with a free object heads the partial queue.
    method PickSlab(newSlab: int) returns (s: int)
      requires Valid() && (slabsPartial == [] && slabsFresh == [] ==> NewPages(newSlab))
      modifies this`slabs, this`chain, this`all, this`pageSlab, this`slabsFresh, this`slabsPartial, this`freeObjs
      ensures SlabsOk() && Counted() && InQueues(slabsPartial, slabsUsedout, slabsFresh, slabs, objnum)
      ensures slabsPartial != [] && slabsPartial[0] == s && Started(slabsPartial[1..], slabs, objnum)
      ensures Live() == old(Live())
      ensures s == if old(slabsPartial) != [] then old(slabsPartial)[0]
                   else if old(slabsFresh) != [] then old(slabsFresh)[0] else newSlab
      ensures slabsPartial == if old(slabsPartial) != [] then old(slabsPartial) else [s]
      ensures [s] + slabsFresh == if old(slabsPartial) != [] then [s] + old(slabsFresh)
                                  else if old(slabsFresh) != [] then old(slabsFresh) else [s]
      ensures
        if old(AllUsedOut()) then s in slabs && slabs[s].free == 0 && freeObjs == old(freeObjs) + objnum
        else slabs == old(slabs) && freeObjs == old(freeObjs)
    {
      hide SlabsOk, Counted, NewPages, InQueues;
      if slabsPartial == [] {
        GrowIfNeeded(newSlab);
        var first := slabsFresh[0];
        FitsSome();
        QueueFirst(slabsUsedout, slabsFresh, slabs, objnum);
        slabsFresh := slabsFresh[1..];
        slabsPartial := [first] + slabsPartial;
        assert slabsPartial == [first];
      }
      s := slabsPartial[0];
    }

    lemma FitsSome()
      requires SlabsOk()
      ensures objnum > 0
    {}

    // A slab used out by the allocation leaves the partial queue.
    method RequeueUsed(s: int, ghost was: map<int, Slab>)
      requires InQueues(slabsPartial, slabsUsedout, slabsFresh, was, objnum) && slabsPartial != []
      requires s == slabsPartial[0] && Started(slabsPartial[1..], was, objnum)
      requires OnlyInuse(was, slabs, s) && slabs[s].inuse == was[s].inuse + 1 <= objnum
      modifies this`slabsPartial, this`slabsUsedout
      ensures InQueues(slabsPartial, slabsUsedout, slabsFresh, slabs, objnum)
      ensures Started(slabsPartial, slabs, objnum)
      ensures
        if slabs[s].inuse == objnum then
          [s] + slabsPartial == old(slabsPartial) && slabsUsedout == [s] + old(slabsUsedout)
        else slabsPartial == old(slabsPartial) && slabsUsedout == old(slabsUsedout)
    {
      assert [s] + Remove(slabsPartial, s) == slabsPartial;
      QueueUsed(slabsPartial, slabsUsedout, slabsFresh, was, slabs, objnum);
      hide InQueues;
      if slabs[s].inuse == objnum {
        slabsPartial := Remove(slabsPartial, s);
        slabsUsedout := [s] + slabsUsedout;
      }
    }

    method Alloc(newSlab: int) returns (obj: int, ghost o: Obj)
      requires Valid() && (slabsPartial == [] && slabsFresh == [] ==> NewPages(newSlab))
      modifies this
      ensures Valid() && o !in old(Live()) && Live() == old(Live()) + {o} && obj == Addr(o)
      ensures o.slab == if old(slabsPartial) != [] then old(slabsPartial)[0]
                        else if old(slabsFresh) != [] then old(slabsFresh)[0] else newSlab
      ensures if old(AllUsedOut()) then o.index == 0 else o.slab in old(slabs) && o.index == old(slabs)[o.slab].free
      ensures freeObjs == old(freeObjs) - 1 + if old(AllUsedOut()) then objnum else 0
      ensures
        var partial := if old(slabsPartial) != [] then old(slabsPartial) else [o.slab];
        if slabs[o.slab].inuse == objnum then
          [o.slab] + slabsPartial == partial && slabsUsedout == [o.slab] + old(slabsUsedout)
        else slabsPartial == partial && slabsUsedout == old(slabsUsedout)
      ensures [o.slab] + slabsFresh == if old(slabsPartial) != [] then [o.slab] + old(slabsFresh)
                                       else if old(slabsFresh) != [] then old(slabsFresh) else [o.slab]
    {
      hide Threaded, PagesOf, Fits, Pow2, NewPages, Started, Counted, InQueues;
      var s := PickSlab(newSlab);
      PartialHead(slabsPartial, slabsUsedout, slabsFresh, slabs, objnum);
      ghost var was := slabs;
      obj, o := AllocOne(s);
      RequeueUsed(s, was);
    }

    // A slab with its first or its last free object changes queues.
    method RequeueFreed(s: int, ghost was: map<int, Slab>)
      requires InQueues(slabsPartial, slabsUsedout, slabsFresh, was, objnum) && objnum > 0
      requires Started(slabsPartial, was, objnum)
      requires OnlyInuse(was, slabs, s) && slabs[s].inuse + 1 == was[s].inuse <= objnum
      modifies this`slabsPartial, this`slabsUsedout, this`slabsFresh
      ensures InQueues(slabsPartial, slabsUsedout, slabsFresh, slabs, objnum)
      ensures Started(slabsPartial, slabs, objnum)
      ensures slabs[s].inuse == 0 ==> (s in slabsFresh <==> objnum >= 2)
      ensures
        if was[s].inuse == objnum then slabsPartial == [s] + old(slabsPartial) && slabsFresh == old(slabsFresh)
        else if slabs[s].inuse == 0 then
          slabsPartial == Remove(old(slabsPartial), s) && slabsFresh == [s] + old(slabsFresh)
        else slabsPartial == old(slabsPartial) && slabsFresh == old(slabsFresh)
      ensures slabsUsedout == if was[s].inuse == objnum then Remove(old(slabsUsedout), s) else old(slabsUsedout)
    {
      var inuse := slabs[s].inuse;
      if inuse == objnum - 1 {
        QueueRefilled(slabsPartial, slabsUsedout, slabsFresh, was, slabs, objnum, s);
        slabsUsedout := Remove(slabsUsedout, s);
        slabsPartial := [s] + slabsPartial;
      } else if inuse == 0 {
        QueueEmptied(slabsPartial, slabsUsedout, slabsFresh, was, slabs, objnum, s);
        slabsPartial := Remove(slabsPartial, s);
        slabsFresh := [s] + slabsFresh;
      } else {
        QueueStays(slabsPartial, slabsUsedout, slabsFresh, was, slabs, objnum, s);
      }
    }

    // virt_to_page and the index division of kmem_cache_free find the object again.
    lemma FindObject(o: Obj)
      requires SlabsOk() && o.slab in slabs && o.index < objnum
      ensures Addr(o) / PAGE in pageSlab && pageSlab[Addr(o) / PAGE] == o.slab
      ensures (Addr(o) - Objs(o.slab)) / objsize == o.index
      ensures o.slab + SLAB_HEADER + 2 * objnum <= Addr(o)
      ensures Addr(o) + objsize <= o.slab + PAGE * Pow2(order)
    {
      hide Threaded;
      MulMonotone(o.index + 1, objnum, objsize);
      DivModUnique(o.index, objsize, 0);
      var s, off := o.slab, Addr(o) - o.slab;
      PageOf(s, off, Pow2(order));
    }

    // Live objects of one cache never overlap, nor do they overlap a slab's header or index array.
    lemma ObjectsApart(o: Obj, o': Obj)
      requires SlabsOk() && o in Live() && o' in Live() && o != o'
      ensures Addr(o) + objsize <= Addr(o') || Addr(o') + objsize <= Addr(o)
    {
      hide Threaded;
      if o.slab == o'.slab {
        MulMonotone(o.index + 1, o'.index, objsize);
        MulMonotone(o'.index + 1, o.index, objsize);
      } else {
        FindObject(o);
        FindObject(o');
        if o.slab < o'.slab {
          SlabsApart(o.slab, o'.slab);
        } else {
          SlabsApart(o'.slab, o.slab);
        }
      }
    }

    lemma SlabsApart(a: int, b: int)
      requires SlabsOk() && a in slabs && b in slabs && a < b
      ensures a + PAGE * Pow2(order) <= b
    {
      hide Threaded;
      var p := b / PAGE;
      assert p in pageSlab && pageSlab[p] == b;
    }

    method Free(obj: int, ghost o: Obj)
      requires Valid() && o in Live() && obj == Addr(o)
      modifies this
      ensures Valid() && Live() == old(Live()) - {o} && o.slab in slabs
      ensures slabs[o.slab].inuse == old(slabs)[o.slab].inuse - 1
      ensures slabs[o.slab].inuse == 0 ==> (o.slab in slabsFresh <==> objnum >= 2)
      ensures slabs[o.slab].free == o.index && freeObjs == old(freeObjs) + 1
      ensures
        if old(slabs)[o.slab].inuse == objnum then
          slabsPartial == [o.slab] + old(slabsPartial) && slabsFresh == old(slabsFresh)
        else if slabs[o.slab].inuse == 0 then
          slabsPartial == Remove(old(slabsPartial), o.slab) && slabsFresh == [o.slab] + old(slabsFresh)
        else slabsPartial == old(slabsPartial) && slabsFresh == old(slabsFresh)
      ensures slabsUsedout ==
        if old(slabs)[o.slab].inuse == objnum then Remove(old(slabsUsedout), o.slab) else old(slabsUsedout)
    {
      FindObject(o);
      var s := pageSlab[obj / PAGE];
      var tofree := (obj - Objs(s)) / objsize;
      assert objnum > 0;
      hide Threaded, PagesOf, Fits, Pow2, Started, InQueues;
      ghost var was := slabs;
      FreeOne(s, tofree);
      RequeueFreed(s, was);
    }

    // An object of a slab that is used out, freed: the next allocation hands it out again.
    method FreeThenAlloc(obj: int, ghost o: Obj, newSlab: int) returns (obj': int, ghost o': Obj)
      requires Valid() && o in Live() && obj == Addr(o) && slabs[o.slab].inuse == objnum
      modifies this
      ensures Valid() && o' == o && obj' == obj && Live() == old(Live()) && freeObjs == old(freeObjs)
    {
      Free(obj, o);
      hide Threaded, PagesOf, Fits, Pow2, Started, InQueues;
      obj', o' := Alloc(newSlab);
    }
  }

  lemma PageOf(s: int, off: int, pages: nat)
    requires s % PAGE == 0 && 0 <= off < PAGE * pages
    ensures s / PAGE <= (s + off) / PAGE < s / PAGE + pages
  {
    assert s + off == (s / PAGE + off / PAGE) * PAGE + off % PAGE;
  }

  // Distinct indices below n, one index missing: fewer than n of them.
  lemma NotAllFree(fl: seq<nat>, head: nat, c: seq<nat>, i: nat)
    requires IsChain(fl, head, c) && Distinct(c) && i < |fl| && i !in c
    ensures |c| < |fl|
  {
    ChainInRange(fl, head, c);
    Pigeonhole(c + [i], |fl|);
  }

  lemma {:induction false} Pigeonhole(c: seq<nat>, n: nat)
    requires Distinct(c) && forall x :: x in c ==> x < n
    ensures |c| <= n
    decreases n
  {
    if c != [] {
      assert c[0] in c;
      RemoveDistinct<nat>(c, n - 1);
      Pigeonhole(Remove<nat>(c, n - 1), n - 1);
    }
  }
}
