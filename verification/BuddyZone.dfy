// src/mmzone.c: one zone of the buddy system, working in place on the page
// descriptors of mem_map and on the zone's per-order free lists.
module BuddyZone {
  import opened Powers
  import opened BuddyBlocks
  import opened Lists
  import opened Wrappers

  // struct page: _count, private, PG_private and PG_zid. The list links (lru)
  // are represented by the free lists themselves.
  datatype Page = Page(count: nat, order: nat, onList: bool, zid: nat)

  const INIT_ORDER: nat := 8

  // ------------------------------------------------------ lists as values

  // Where a freed block ends up in the lists: each free buddy leaves its list,
  // and the grown block goes to the front of the list of its final order.
  function Absorb(lists: seq<seq<nat>>, h: nat, k: nat): (r: seq<seq<nat>>)
    requires |lists| == MAX_ORDER + 1 && k <= MAX_ORDER
    ensures |r| == MAX_ORDER + 1
    decreases MAX_ORDER - k
  {
    if k < MAX_ORDER && BuddyOf(h, k) >= 0 && BuddyOf(h, k) in lists[k] then
      assert 0 <= Parent(h, k);
      Absorb(lists[k := Remove<nat>(lists[k], BuddyOf(h, k))], Parent(h, k), k + 1)
    else
      lists[k := [h] + lists[k]]
  }

  // The block the freed pages are in now heads list j, and what was on that list follows.
  ghost predicate Fronted(was: seq<seq<nat>>, now: seq<seq<nat>>, page: nat, order: nat, j: nat) {
    && |was| == |now| == MAX_ORDER + 1 && order <= j <= MAX_ORDER
    && now[j] != [] && now[j][1..] == was[j]
    && now[j][0] <= page && page + Pow2(order) <= now[j][0] + Pow2(j)
  }

  // What is freed last goes out first.
  lemma {:induction false} FreedInFront(lists: seq<seq<nat>>, h: nat, k: nat) returns (j: nat)
    requires |lists| == MAX_ORDER + 1 && k <= MAX_ORDER && Aligned(h, k)
    ensures Fronted(lists, Absorb(lists, h, k), h, k, j)
    decreases MAX_ORDER - k
  {
    BuddyFacts(h, k);
    if k < MAX_ORDER && BuddyOf(h, k) in lists[k] {
      hide Aligned, Pow2;
      j := FreedInFront(lists[k := Remove<nat>(lists[k], BuddyOf(h, k))], Parent(h, k), k + 1);
    } else {
      j := k;
    }
  }

  // After the first block of list i has been halved down to order k: list k is
  // headed by the topmost piece, and every list in between holds one lower half.
  ghost predicate HalvedDown(was: seq<seq<nat>>, now: seq<seq<nat>>, i: nat, k: nat) {
    && |was| == |now| == MAX_ORDER + 1 && k <= i <= MAX_ORDER && was[i] != []
    && (forall j :: k <= j < i ==> was[j] == [])
    && (k == i ==> now[i] == was[i])
    && (k < i ==> now[i] == was[i][1..])
    && (k < i ==> now[k] == [was[i][0] + Pow2(i) - Pow2(k), was[i][0] + Pow2(i) - Pow2(k + 1)])
    && (forall j :: k < j < i ==> now[j] == [was[i][0] + Pow2(i) - Pow2(j + 1)])
    && (forall j :: 0 <= j <= MAX_ORDER && (j < k || i < j) ==> now[j] == was[j])
  }

  lemma NotYetHalved(lists: seq<seq<nat>>, i: nat)
    requires |lists| == MAX_ORDER + 1 && i <= MAX_ORDER && lists[i] != []
    ensures HalvedDown(lists, lists, i, i)
  {}

  lemma HalvedOnce(was: seq<seq<nat>>, now: seq<seq<nat>>, next: seq<seq<nat>>, i: nat, k: nat)
    requires HalvedDown(was, now, i, k) && 0 < k && was[k - 1] == [] && now[k] != []
    requires next == now[k := now[k][1..]][k - 1 := [now[k][0] + Pow2(k - 1), now[k][0]] + now[k - 1]]
    ensures HalvedDown(was, next, i, k - 1)
    ensures next[k - 1][0] == was[i][0] + Pow2(i) - Pow2(k - 1)
  {
    Pow2Succ(k - 1);
    hide Pow2;
    assert now[k][0] == was[i][0] + Pow2(i) - Pow2(k);
    assert next[k - 1] == [was[i][0] + Pow2(i) - Pow2(k - 1), was[i][0] + Pow2(i) - Pow2(k)];
  }

  // The same once the topmost piece has been handed out: the rest of the first
  // block of list i stays behind, one block in each list k..i-1.
  ghost predicate TakenFrom(was: seq<seq<nat>>, now: seq<seq<nat>>, i: nat, k: nat) {
    && |was| == |now| == MAX_ORDER + 1 && k <= i <= MAX_ORDER && was[i] != []
    && now[i] == was[i][1..]
    && (forall j :: k <= j < i ==> was[j] == [] && now[j] == [was[i][0] + Pow2(i) - Pow2(j + 1)])
    && (forall j :: 0 <= j <= MAX_ORDER && (j < k || i < j) ==> now[j] == was[j])
  }

  lemma TakenAfterHalving(was: seq<seq<nat>>, mid: seq<seq<nat>>, now: seq<seq<nat>>, i: nat, k: nat, it: nat)
    requires HalvedDown(was, mid, i, k) && mid[k] != []
    requires it == mid[k][0] && now == mid[k := mid[k][1..]]
    ensures TakenFrom(was, now, i, k)
    ensures it == was[i][0] + Pow2(i) - Pow2(k)
  {
    hide Pow2;
  }

  class Zone {
    const memMap: array<Page>
    const base: nat      // zone_mem_map, as an index into mem_map
    const start: nat     // pages below base + start are never managed
    const spanned: nat
    const id: nat
    var freeList: seq<seq<nat>>
    var nrFree: seq<int>
    ghost var managed: nat   // pages base + start .. managed have been given to the zone

    ghost predicate Shape()
      reads this
    {
      && base + spanned <= memMap.Length
      && base + start <= managed <= base + spanned
      && |freeList| == |nrFree| == MAX_ORDER + 1
    }

    ghost predicate Managed(p: int)
      reads this
    {
      base + start <= p < managed
    }

    ghost predicate InZone(p: int) {
      base <= p < base + spanned
    }

    // The blocks heading the free lists and the blocks handed out, as the page
    // descriptors tell them.
    ghost function Free(): (r: Blocks)
      requires managed <= memMap.Length
      reads this, memMap
      ensures forall b :: b in r <==>
        Managed(b.head) && memMap[b.head].onList && memMap[b.head].order == b.order
    {
      set p: nat | base + start <= p < managed && memMap[p].onList :: Block(p, memMap[p].order)
    }

    ghost function Live(): (r: Blocks)
      requires managed <= memMap.Length
      reads this, memMap
      ensures forall b :: b in r <==>
        Managed(b.head) && memMap[b.head].count >= 1 && memMap[b.head].order == b.order
    {
      set p: nat | base + start <= p < managed && memMap[p].count >= 1 :: Block(p, memMap[p].order)
    }

    // nr_free counts each list, and no page is on a list twice.
    ghost predicate ListsWellFormed()
      reads this
    {
      && |freeList| == |nrFree| == MAX_ORDER + 1
      && forall k :: 0 <= k <= MAX_ORDER ==> nrFree[k] == |freeList[k]| && Distinct(freeList[k])
    }

    // Page p is on list k exactly when its descriptor says so.
    ghost predicate ListsMatch()
      requires Shape()
      reads this, memMap
    {
      forall k: nat, p: nat {:trigger p in freeList[k]} :: k <= MAX_ORDER ==>
        (p in freeList[k] <==> Managed(p) && memMap[p].onList && memMap[p].order == k)
    }

    // A listed page is unreferenced; heads of blocks, listed or handed out, know their zone.
    ghost predicate Described(p: int)
      requires 0 <= p < memMap.Length
      reads this, memMap
    {
      && (memMap[p].onList ==>
            Managed(p) && memMap[p].count == 0 && memMap[p].order <= MAX_ORDER && memMap[p].zid == id)
      && (memMap[p].count >= 1 ==> Managed(p) && memMap[p].zid == id)
    }

    ghost predicate Consistent()
      reads this, memMap
    {
      && Shape() && ListsWellFormed() && ListsMatch()
      && forall p: nat {:trigger InZone(p)} {:trigger memMap[p]} :: InZone(p) ==> Described(p)
    }

    ghost predicate Valid()
      reads this, memMap
    {
      Consistent() && Coalesced(Free(), Live(), base + start, managed)
    }

    // page_is_buddy, after the zone boundary test.
    predicate IsBuddy(p: int, k: nat)
      requires base + spanned <= memMap.Length
      reads memMap
    {
      && base <= p < base + spanned
      && memMap[p].onList && memMap[p].count == 0 && memMap[p].order == k
    }

    lemma BuddyTest(n: int, k: nat)
      requires Consistent() && k <= MAX_ORDER
      ensures IsBuddy(n, k) <==> n >= 0 && Block(n, k) in Free()
      ensures IsBuddy(n, k) <==> n >= 0 && n in freeList[k]
    {}

    // Block h of order k has been taken back but is not on a list yet.
    ghost predicate Holding(h: nat, k: nat)
      reads this, memMap
    {
      && Consistent() && Managed(h) && k <= MAX_ORDER
      && memMap[h].count == 0 && !memMap[h].onList && memMap[h].zid == id
      && InHand(Free(), Live(), Block(h, k), base + start, managed)
    }

    // Only descriptors of this zone differ, and none of a referenced page does.
    twostate predicate OnlyListingChanged()
      reads this, memMap
    {
      forall p: nat :: p < memMap.Length ==>
        && memMap[p].count == old(memMap[p].count)
        && (!InZone(p) || memMap[p].count >= 1 ==> memMap[p] == old(memMap[p]))
    }

    // list_del on a free block: it leaves its list and loses PG_private.
    method Unlist(b: nat, k: nat)
      requires Consistent() && k <= MAX_ORDER && Block(b, k) in Free()
      modifies this`freeList, this`nrFree, memMap
      ensures Consistent() && memMap[b] == old(memMap[b]).(onList := false)
      ensures Free() == old(Free()) - {Block(b, k)} && Live() == old(Live())
      ensures freeList == old(freeList)[k := Remove<nat>(old(freeList)[k], b)]
      ensures OnlyListingChanged()
      ensures forall p :: 0 <= p < memMap.Length && p != b ==> memMap[p] == old(memMap[p])
    {
      assert b in freeList[k];
      RemoveDistinct(freeList[k], b);
      freeList := freeList[k := Remove<nat>(freeList[k], b)];
      nrFree := nrFree[k := nrFree[k] - 1];
      memMap[b] := memMap[b].(onList := false);
    }

    // list_add of a block that is on no list: to the front, with PG_private and its order.
    method Enlist(b: nat, k: nat)
      requires Consistent() && Managed(b) && k <= MAX_ORDER
      requires memMap[b].count == 0 && !memMap[b].onList && memMap[b].zid == id
      modifies this`freeList, this`nrFree, memMap
      ensures Consistent()
      ensures Free() == old(Free()) + {Block(b, k)} && Live() == old(Live())
      ensures freeList == old(freeList)[k := [b] + old(freeList)[k]]
      ensures OnlyListingChanged()
    {
      assert forall j: nat :: j <= MAX_ORDER ==> b !in freeList[j];
      freeList := freeList[k := [b] + freeList[k]];
      memMap[b] := memMap[b].(onList := true, order := k);
      nrFree := nrFree[k := nrFree[k] + 1];
    }

    // One round of the merge loop: the free buddy is absorbed.
    method MergeWithBuddy(h: nat, k: nat) returns (q: nat)
      requires Holding(h, k) && k < MAX_ORDER && IsBuddy(BuddyOf(h, k), k)
      modifies this`freeList, this`nrFree, memMap
      ensures Holding(q, k + 1) && Live() == old(Live())
      ensures Absorb(freeList, q, k + 1) == Absorb(old(freeList), h, k)
      ensures OnlyListingChanged()
    {
      hide Tiles, NoBuddies, Pow2;
      var neighbor := BuddyOf(h, k);
      BuddyTest(neighbor, k);
      ghost var c, p := AbsorbBuddy(Free(), Live(), Block(h, k), base + start, managed);
      q := Parent(h, k);
      assert Managed(q) by {
        EndsWithin(Free() - {c} + Live() + {p}, base + start, managed, p);
      }
      Unlist(neighbor, k);
    }

    // The end of the merge loop: no free buddy, so the block goes on its list.
    method Settle(h: nat, k: nat)
      requires Holding(h, k)
      requires k < MAX_ORDER ==> !IsBuddy(BuddyOf(h, k), k)
      modifies this`freeList, this`nrFree, memMap
      ensures Valid() && Live() == old(Live())
      ensures freeList == Absorb(old(freeList), h, k)
      ensures OnlyListingChanged()
    {
      hide Tiles, NoBuddies, Pow2;
      BuddyTest(BuddyOf(h, k), k);
      PutBack(Free(), Live(), Block(h, k), base + start, managed);
      Enlist(h, k);
    }

    // __free_pages_bulk
    method FreePagesBulk(page: nat, order: nat)
      requires Holding(page, order)
      modifies this`freeList, this`nrFree, memMap
      ensures Valid() && Live() == old(Live())
      ensures freeList == Absorb(old(freeList), page, order)
      ensures OnlyListingChanged()
    {
      hide InHand, Coalesced, Pow2, Absorb, Described, ListsMatch, ListsWellFormed;
      var orphan: nat, k: nat := page, order;
      while k < MAX_ORDER
        invariant Holding(orphan, k)
        invariant Live() == old(Live())
        invariant Absorb(freeList, orphan, k) == Absorb(old(freeList), page, order)
        invariant OnlyListingChanged()
        decreases MAX_ORDER - k
      {
        if !IsBuddy(BuddyOf(orphan, k), k) { break; }
        orphan := MergeWithBuddy(orphan, k);
        k := k + 1;
      }
      Settle(orphan, k);
    }

    // free_pages: drops one reference; the last one gives the block back. The zone
    // is the one PG_zid names, which Described() says is this one.
    method FreePages(page: nat, order: nat)
      requires Valid() && InZone(page) && memMap[page].count >= 1
      requires memMap[page].order == order <= MAX_ORDER
      modifies this`freeList, this`nrFree, memMap
      ensures Valid()
      ensures memMap[page].count == old(memMap[page].count) - 1
      ensures old(memMap[page].count) > 1 ==> Live() == old(Live()) && freeList == old(freeList)
      ensures old(memMap[page].count) == 1 ==>
        Live() == old(Live()) - {Block(page, order)} && freeList == Absorb(old(freeList), page, order)
      ensures old(memMap[page].count) == 1 ==> exists j: nat :: Fronted(old(freeList), freeList, page, order, j)
      ensures forall p: nat :: p < memMap.Length && p != page && (!InZone(p) || memMap[p].count >= 1) ==>
        memMap[p] == old(memMap[p])
    {
      hide Tiles, NoBuddies, Pow2, Absorb, Fronted, Aligned, ListsWellFormed;
      assert Block(page, order) in Live();
      LiveAligned(page, order);
      ghost var j := FreedInFront(freeList, page, order);
      memMap[page] := memMap[page].(count := memMap[page].count - 1);
      assert Free() == old(Free());
      if memMap[page].count == 0 {
        assert Live() == old(Live()) - {Block(page, order)};
        TakeBack(old(Free()), old(Live()), Block(page, order), base + start, managed);
        FreePagesBulk(page, order);
      } else {
        assert Live() == old(Live());
      }
    }

    lemma LiveAligned(page: nat, order: nat)
      requires Valid() && Block(page, order) in Live()
      ensures Aligned(page, order)
    {
      hide NoBuddies, Covers, Disjoint;
      assert Block(page, order) in Free() + Live();
    }

    // The state between two cleavings: list i is headed by the only block whose
    // buddy may be free.
    ghost predicate Splitting(i: nat)
      reads this, memMap
    {
      && Consistent() && i <= MAX_ORDER && freeList[i] != []
      && Free() !! Live()
      && Tiles(Free() + Live(), base + start, managed)
      && NoBuddies(Free() - {Block(freeList[i][0], i)})
    }

    // The descriptor half of cleave: the head's order drops by one and the
    // whole descriptor is copied to the new head.
    method SplitPages(mother: nat, child: nat)
      requires mother < memMap.Length && child < memMap.Length && memMap[mother].order > 0
      modifies memMap
      ensures memMap[mother] == memMap[child] == old(memMap[mother]).(order := old(memMap[mother].order) - 1)
      ensures forall p :: 0 <= p < memMap.Length && p != mother && p != child ==> memMap[p] == old(memMap[p])
    {
      memMap[mother] := memMap[mother].(order := memMap[mother].order - 1);
      memMap[child] := memMap[mother];
    }

    // The list half: both halves go to the front of the next lower list.
    method SplitLists(i: nat, mother: nat, child: nat)
      requires 0 < i <= MAX_ORDER && ListsWellFormed()
      requires freeList[i] != [] && mother == freeList[i][0] != child
      requires forall k :: 0 <= k <= MAX_ORDER ==> child !in freeList[k] && (k != i ==> mother !in freeList[k])
      modifies this`freeList, this`nrFree
      ensures ListsWellFormed()
      ensures freeList == old(freeList)[i := old(freeList[i])[1..]][i - 1 := [child, mother] + old(freeList[i - 1])]
      ensures forall k, p: nat {:trigger p in freeList[k]} :: 0 <= k <= MAX_ORDER ==>
        (p in freeList[k] <==> if p == mother || p == child then k == i - 1 else p in old(freeList)[k])
    {
      TailMembers(freeList[i]);
      freeList := freeList[i := freeList[i][1..]];
      nrFree := nrFree[i := nrFree[i] - 1];
      freeList := freeList[i - 1 := [mother] + freeList[i - 1]];
      freeList := freeList[i - 1 := [child] + freeList[i - 1]];
      nrFree := nrFree[i - 1 := nrFree[i - 1] + 2];
      ghost var rest := old(freeList)[i - 1];
      assert [child] + ([mother] + rest) == [child, mother] + rest;
      assert freeList[i - 1] == [child, mother] + rest;
    }

    method SplitBlock(i: nat, mother: nat, child: nat)
      requires 0 < i <= MAX_ORDER && Consistent() && freeList[i] != [] && mother == freeList[i][0]
      requires Managed(child) && !memMap[child].onList && memMap[child].count == 0
      modifies this`freeList, this`nrFree, memMap
      ensures Consistent()
      ensures Free() == old(Free()) - {Block(mother, i)} + {Block(mother, i - 1), Block(child, i - 1)}
      ensures Live() == old(Live())
      ensures freeList == old(freeList)[i := old(freeList[i])[1..]][i - 1 := [child, mother] + old(freeList[i - 1])]
      ensures OnlyListingChanged()
    {
      assert mother in freeList[i];
      SplitPages(mother, child);
      SplitLists(i, mother, child);
    }

    // cleave: the first block of list i becomes two blocks of order i - 1.
    method Cleave(i: nat)
      requires 0 < i && Splitting(i)
      modifies this`freeList, this`nrFree, memMap
      ensures Splitting(i - 1) && Live() == old(Live())
      ensures
        var h := old(freeList[i][0]);
        freeList == old(freeList)[i := old(freeList[i])[1..]][i - 1 := [h + Pow2(i - 1), h] + old(freeList[i - 1])]
      ensures OnlyListingChanged()
    {
      hide Tiles, NoBuddies, Pow2;
      var mother := freeList[i][0];
      assert mother in freeList[i];
      ghost var f := CleaveBlock(Free(), Live(), mother, i - 1, base + start, managed);
      var child: nat := mother + Pow2(i - 1);
      HalfIsInterior(mother, i, child, f);
      SplitBlock(i, mother, child);
      assert Free() == f;
    }

    lemma HalfIsInterior(mother: nat, i: nat, child: nat, f: Blocks)
      requires Shape() && Free() !! Live() && Tiles(Free() + Live(), base + start, managed)
      requires 0 < i && Block(mother, i) in Free() && child == mother + Pow2(i - 1)
      requires Block(child, i - 1) in f && Tiles(f + Live(), base + start, managed)
      ensures Managed(child) && !memMap[child].onList && memMap[child].count == 0
    {
      hide Pow2, Covers;
      Pow2Succ(i - 1);
      EndsWithin(f + Live(), base + start, managed, Block(child, i - 1));
      var b, m := Block(child, memMap[child].order), Free() + Live();
      assert Block(mother, i) in m;
      assert b in m ==> b.End() <= mother || mother + Pow2(i) <= b.head;
    }

    // The cleaving loop of __rmquene: from list i down to the requested order.
    method CleaveDown(i: nat, order: nat)
      requires order <= i && Splitting(i)
      requires forall j :: order <= j < i ==> freeList[j] == []
      modifies this`freeList, this`nrFree, memMap
      ensures Splitting(order) && Live() == old(Live())
      ensures HalvedDown(old(freeList), freeList, i, order)
      ensures freeList[order][0] == old(freeList)[i][0] + Pow2(i) - Pow2(order)
      ensures OnlyListingChanged()
    {
      hide Described, ListsMatch, ListsWellFormed, Tiles, NoBuddies, HalvedDown, Pow2;
      NotYetHalved(freeList, i);
      var k := i;
      while k > order
        invariant order <= k <= i
        invariant Splitting(k) && Live() == old(Live())
        invariant HalvedDown(old(freeList), freeList, i, k)
        invariant freeList[k][0] == old(freeList)[i][0] + Pow2(i) - Pow2(k)
        invariant OnlyListingChanged()
      {
        ghost var now := freeList;
        Cleave(k);
        HalvedOnce(old(freeList), now, freeList, i, k);
        k := k - 1;
      }
    }

    // The end of __rmquene: the first block of list k is handed out.
    method TakeFirst(k: nat) returns (it: nat)
      requires Splitting(k)
      modifies this`freeList, this`nrFree, memMap
      ensures Valid() && Managed(it) && old(memMap[it].count) == 0
      ensures it == old(freeList)[k][0] && freeList == old(freeList)[k := old(freeList)[k][1..]]
      ensures Live() == old(Live()) + {Block(it, k)} && memMap[it].count == 1
      ensures FreeRun(old(Live()), base + start, managed, it, k)
      ensures forall p: nat :: p < memMap.Length && p != it ==> memMap[p] == old(memMap[p])
    {
      hide Tiles, NoBuddies, Pow2, FreeRun;
      it := freeList[k][0];
      assert it in freeList[k];
      TailMembers(freeList[k]);
      HandOut(Free(), Live(), Block(it, k), base + start, managed);
      freeList := freeList[k := freeList[k][1..]];
      nrFree := nrFree[k := nrFree[k] - 1];
      memMap[it] := memMap[it].(count := 1, onList := false);
      assert Free() == old(Free()) - {Block(it, k)};
      assert Live() == old(Live()) + {Block(it, k)};
    }

    // No list of order k or more has a block: then no aligned run of 2^k pages is free.
    lemma EmptyListsNoRun(k: nat)
      requires Valid() && k <= MAX_ORDER
      requires forall j :: k <= j <= MAX_ORDER ==> nrFree[j] == 0
      ensures !HasFreeRun(Live(), base + start, managed, k)
    {
      hide Tiles, NoBuddies, Pow2;
      forall b | b in Free()
        ensures b.order < k
      {
        assert b.head in freeList[b.order];
      }
      RunNeedsBlock(Free(), Live(), base + start, managed, k);
    }

    // The search loop of __rmquene: the first non-empty list of order at least `order`.
    method FirstList(order: nat) returns (i: nat)
      requires |nrFree| == MAX_ORDER + 1 && order <= MAX_ORDER
      ensures order <= i <= MAX_ORDER + 1
      ensures forall j :: order <= j < i ==> nrFree[j] == 0
      ensures i <= MAX_ORDER ==> nrFree[i] != 0
    {
      i := order;
      while nrFree[i] == 0
        invariant order <= i <= MAX_ORDER
        invariant forall j :: order <= j < i ==> nrFree[j] == 0
        decreases MAX_ORDER - i
      {
        i := i + 1;
        if i == MAX_ORDER + 1 { return; }
      }
    }

    lemma StartSplitting(i: nat)
      requires Valid() && i <= MAX_ORDER && nrFree[i] != 0
      ensures Splitting(i)
      ensures forall j :: 0 <= j <= MAX_ORDER && nrFree[j] == 0 ==> freeList[j] == []
    {
      hide Tiles, NoBuddies, Pow2;
      FewerNoBuddies(Free(), Block(freeList[i][0], i));
    }

    // __rmquene; running out of memory, where the source halts, is None.
    method RmQueue(order: nat) returns (r: Option<nat>)
      requires Valid() && order <= MAX_ORDER
      modifies this`freeList, this`nrFree, memMap
      ensures Valid()
      ensures r.None? <==> !HasFreeRun(old(Live()), base + start, managed, order)
      ensures r.None? ==> freeList == old(freeList) && nrFree == old(nrFree) && memMap[..] == old(memMap[..])
      ensures r.Some? ==>
        && FreeRun(old(Live()), base + start, managed, r.value, order)
        && Live() == old(Live()) + {Block(r.value, order)} && memMap[r.value].count == 1
      ensures r.Some? ==> exists i: nat ::
        && TakenFrom(old(freeList), freeList, i, order)
        && r.value == old(freeList)[i][0] + Pow2(i) - Pow2(order)
      ensures forall p: nat :: p < memMap.Length && (!InZone(p) || old(memMap[p].count) >= 1) ==>
        memMap[p] == old(memMap[p])
    {
      hide Coalesced, Splitting, Pow2, FreeRun, HasFreeRun, TakenFrom, Described, ListsMatch, ListsWellFormed;
      var i := FirstList(order);
      if i == MAX_ORDER + 1 {
        EmptyListsNoRun(order);
        return None;
      }
      StartSplitting(i);
      CleaveDown(i, order);
      ghost var mid := freeList;
      var it := TakeFirst(order);
      TakenAfterHalving(old(freeList), mid, freeList, i, order, it);
      RunWitness(old(Live()), base + start, managed, it, order);
      r := Some(it);
    }

    // get_page: one more reference to a block already handed out.
    method GetPage(page: nat)
      requires Valid() && InZone(page) && memMap[page].count >= 1
      modifies memMap
      ensures Valid() && Live() == old(Live())
      ensures memMap[page] == old(memMap[page]).(count := old(memMap[page].count) + 1)
      ensures forall p :: 0 <= p < memMap.Length && p != page ==> memMap[p] == old(memMap[p])
    {
      hide Tiles, NoBuddies, Pow2;
      memMap[page] := memMap[page].(count := memMap[page].count + 1);
      assert Free() == old(Free());
      assert Live() == old(Live());
    }

    // One round of init_free_area: the next 256 pages join the zone as a block in use.
    method Admit(linked: nat)
      requires Valid() && managed == base + linked && linked + 256 <= spanned
      requires Aligned(base + linked, INIT_ORDER)
      modifies this`managed, memMap
      ensures Valid() && managed == base + linked + 256
      ensures Live() == old(Live()) + {Block(base + linked, INIT_ORDER)}
      ensures memMap[base + linked] == Page(1, INIT_ORDER, false, id)
      ensures forall p: nat :: p < memMap.Length && p != base + linked ==> memMap[p] == old(memMap[p])
    {
      hide Tiles, NoBuddies, Pow2;
      Pow2Init();
      Append(Free(), Live(), INIT_ORDER, base + start, managed);
      var p := base + linked;
      memMap[p] := memMap[p].(zid := id, count := 1, order := INIT_ORDER);
      managed := managed + 256;
      assert Free() == old(Free());
      assert Live() == old(Live()) + {Block(p, INIT_ORDER)};
    }

    // init_zone and init_free_area
    constructor (memMap: array<Page>, base: nat, start: nat, spanned: nat, id: nat)
      requires start <= spanned && base + spanned <= memMap.Length
      requires base % 256 == 0 && start % 256 == 0 && spanned % 256 == 0
      requires forall p :: base <= p < base + spanned ==> memMap[p].count == 0 && !memMap[p].onList
      modifies memMap
      ensures this.memMap == memMap && this.base == base && this.start == start
      ensures this.spanned == spanned && this.id == id
      ensures Valid() && managed == base + spanned && Live() == {}
      ensures forall p: nat :: p < memMap.Length && !InZone(p) ==> memMap[p] == old(memMap[p])
    {
      this.memMap, this.base, this.start, this.spanned, this.id := memMap, base, start, spanned, id;
      freeList := seq(MAX_ORDER + 1, _ => []);
      nrFree := seq(MAX_ORDER + 1, _ => 0);
      managed := base + start;
      new;
      NothingYet(Free(), Live(), base + start);
      FillZone();
    }

    // The loop of init_free_area.
    method FillZone()
      requires Valid() && managed == base + start && Live() == {} && start <= spanned
      requires base % 256 == 0 && start % 256 == 0 && spanned % 256 == 0
      modifies this, memMap
      ensures Valid() && managed == base + spanned && Live() == {}
      ensures forall p: nat :: p < memMap.Length && !InZone(p) ==> memMap[p] == old(memMap[p])
    {
      hide Coalesced, Described, ListsMatch, ListsWellFormed, Pow2, Absorb;
      Pow2Init();
      var linked := start;
      while linked < spanned
        invariant start <= linked <= spanned && linked % 256 == 0
        invariant Valid() && managed == base + linked && Live() == {}
        invariant forall p: nat :: p < memMap.Length && !InZone(p) ==> memMap[p] == old(memMap[p])
      {
        Admit(linked);
        FreePages(base + linked, INIT_ORDER);
        linked := linked + 256;
      }
    }
  }

  lemma Pow2Init()
    ensures Pow2(INIT_ORDER) == 256
  {
    assert Pow2(4) == 16;
  }
}
