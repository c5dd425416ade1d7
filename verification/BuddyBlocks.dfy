// Sets of naturally aligned blocks, as the buddy system keeps them: a block is
// its first page and its order, and a block of order k spans 2^k pages.
module BuddyBlocks {
  import opened Powers

  const MAX_ORDER: nat := 10

  datatype Block = Block(head: nat, order: nat) {
    function End(): nat { head + Pow2(order) }
  }

  type Blocks = set<Block>

  ghost predicate Covers(m: Blocks, p: nat) {
    exists b :: b in m && b.head <= p < b.End()
  }

  ghost predicate Disjoint(m: Blocks) {
    forall a, b :: a in m && b in m && a != b ==> a.End() <= b.head || b.End() <= a.head
  }

  ghost predicate AllAligned(m: Blocks) {
    forall b :: b in m ==> b.order <= MAX_ORDER && Aligned(b.head, b.order)
  }

  // The blocks are aligned, do not overlap, and together are exactly the pages lo..hi.
  ghost predicate Tiles(m: Blocks, lo: nat, hi: nat) {
    && AllAligned(m)
    && Disjoint(m)
    && forall p: nat :: Covers(m, p) <==> lo <= p < hi
  }

  // The other half of the block of order k+1 that holds the block h of order k.
  function BuddyOf(h: nat, k: nat): int {
    if h / Pow2(k) % 2 == 0 then h + Pow2(k) else h - Pow2(k)
  }

  function Parent(h: nat, k: nat): int {
    if h / Pow2(k) % 2 == 0 then h else h - Pow2(k)
  }

  ghost predicate HasBuddy(free: Blocks, b: Block) {
    && b.order < MAX_ORDER
    && BuddyOf(b.head, b.order) >= 0
    && Block(BuddyOf(b.head, b.order), b.order) in free
  }

  // No two free blocks could be merged into one.
  ghost predicate NoBuddies(free: Blocks) {
    forall b :: b in free ==> !HasBuddy(free, b)
  }

  // ------------------------------------------------------ buddies

  // Multiples of 2^k: even ones are aligned to order k+1 as well.
  lemma Multiple(q: nat, k: nat)
    ensures Aligned(q * Pow2(k), k)
    ensures q * Pow2(k) / Pow2(k) == q
    ensures q % 2 == 0 ==> Aligned(q * Pow2(k), k + 1)
    ensures (q + 1) * Pow2(k) == q * Pow2(k) + Pow2(k)
  {
    DivModUnique(q, Pow2(k), 0);
    if q % 2 == 0 {
      assert q * Pow2(k) == (q / 2) * Pow2(k + 1);
      DivModUnique(q / 2, Pow2(k + 1), 0);
    }
  }

  lemma Quotient(h: nat, k: nat) returns (q: nat)
    requires Aligned(h, k)
    ensures h == q * Pow2(k) && h / Pow2(k) == q
  {
    q := h / Pow2(k);
  }

  // A block and its buddy are the two halves of their parent.
  lemma BuddyFacts(h: nat, k: nat)
    requires Aligned(h, k)
    ensures 0 <= BuddyOf(h, k) && Aligned(BuddyOf(h, k), k)
    ensures BuddyOf(BuddyOf(h, k), k) == h != BuddyOf(h, k)
    ensures 0 <= Parent(h, k) && Aligned(Parent(h, k), k + 1)
    ensures (Parent(h, k) == h && BuddyOf(h, k) == h + Pow2(k)) || (Parent(h, k) == BuddyOf(h, k) == h - Pow2(k))
    ensures Parent(h, k) <= h && h + Pow2(k) <= Parent(h, k) + Pow2(k + 1)
  {
    hide Aligned, Pow2;
    Pow2Succ(k);
    var q := Quotient(h, k);
    Multiple(q, k);
    if q % 2 == 0 {
      Multiple(q + 1, k);
      assert BuddyOf(h, k) == (q + 1) * Pow2(k);
    } else {
      Multiple(q - 1, k);
      assert BuddyOf(h, k) == (q - 1) * Pow2(k);
    }
  }

  lemma BuddyOfParent(h: nat, k: nat)
    requires Aligned(h, k + 1)
    ensures BuddyOf(h, k) == h + Pow2(k)
  {
    var q := h / Pow2(k + 1);
    assert h == (2 * q) * Pow2(k);
    Multiple(2 * q, k);
  }

  lemma HalvesNotBothFree(free: Blocks, h: nat, k: nat)
    requires NoBuddies(free) && k < MAX_ORDER && Aligned(h, k + 1)
    ensures !(Block(h, k) in free && Block(h + Pow2(k), k) in free)
  {
    BuddyOfParent(h, k);
    assert Block(h, k) in free ==> !HasBuddy(free, Block(h, k));
  }

  // ------------------------------------------------------ coalescing

  ghost predicate AllCovered(m: Blocks, lo: nat, hi: nat) {
    forall p: nat :: lo <= p < hi ==> Covers(m, p)
  }

  // Block b holds the whole run of 2^k pages from h on.
  ghost predicate Holds(b: Block, h: nat, k: nat) {
    k <= b.order && b.head <= h && h + Pow2(k) <= b.End()
  }

  lemma JoinHalves(free: Blocks, h: nat, k: nat, l: Block, r: Block) returns (b: Block)
    requires AllAligned(free) && NoBuddies(free)
    requires k < MAX_ORDER && Aligned(h, k + 1)
    requires l in free && r in free && Holds(l, h, k) && Holds(r, h + Pow2(k), k)
    ensures b in free && Holds(b, h, k + 1)
  {
    hide Aligned, Pow2, NoBuddies;
    Pow2Succ(k);
    HalvesNotBothFree(free, h, k);
    b := if k < l.order then l else r;
    Nested(h, k + 1, b.head, b.order);
  }

  // The heart of coalescing: with no mergeable pair left, every aligned run of
  // free pages lies inside one single free block.
  lemma {:induction false} RunInOneBlock(free: Blocks, h: nat, k: nat) returns (b: Block)
    requires AllAligned(free) && NoBuddies(free)
    requires k <= MAX_ORDER && Aligned(h, k)
    requires AllCovered(free, h, h + Pow2(k))
    ensures b in free && Holds(b, h, k)
    decreases k
  {
    if k == 0 {
      assert Covers(free, h);
      b :| b in free && b.head <= h < b.End();
    } else {
      hide Aligned, Pow2, NoBuddies, Covers, Holds;
      Pow2Succ(k - 1);
      AlignedDown(h, k - 1, k);
      AlignedEnd(h, k - 1);
      var l := RunInOneBlock(free, h, k - 1);
      var r := RunInOneBlock(free, h + Pow2(k - 1), k - 1);
      b := JoinHalves(free, h, k - 1, l, r);
    }
  }

  // ------------------------------------------------------ the canonical form

  // An aligned run of 2^k pages of lo..hi none of which is in an outstanding block.
  ghost predicate FreeRun(live: Blocks, lo: nat, hi: nat, h: nat, k: nat) {
    && k <= MAX_ORDER
    && Aligned(h, k)
    && lo <= h && h + Pow2(k) <= hi
    && forall p: nat :: h <= p < h + Pow2(k) ==> !Covers(live, p)
  }

  ghost predicate HasFreeRun(live: Blocks, lo: nat, hi: nat, k: nat) {
    exists h: nat :: FreeRun(live, lo, hi, h, k)
  }

  lemma RunWitness(live: Blocks, lo: nat, hi: nat, h: nat, k: nat)
    requires FreeRun(live, lo, hi, h, k)
    ensures HasFreeRun(live, lo, hi, k)
  {}

  // A free run that is not half of a larger one.
  ghost predicate MaximalRun(live: Blocks, lo: nat, hi: nat, h: nat, k: nat) {
    && FreeRun(live, lo, hi, h, k)
    && (k < MAX_ORDER ==> !(0 <= Parent(h, k) && FreeRun(live, lo, hi, Parent(h, k), k + 1)))
  }

  // What a zone looks like between operations: free and outstanding blocks tile
  // it, and nothing is left to merge.
  ghost predicate Coalesced(free: Blocks, live: Blocks, lo: nat, hi: nat) {
    && free !! live
    && Tiles(free + live, lo, hi)
    && NoBuddies(free)
  }

  lemma FreeIsNotLive(free: Blocks, live: Blocks, lo: nat, hi: nat, p: nat)
    requires free !! live && Tiles(free + live, lo, hi)
    ensures Covers(free, p) <==> lo <= p < hi && !Covers(live, p)
  {
    hide Aligned, Pow2;
    var m := free + live;
    if Covers(free, p) {
      var a :| a in free && a.head <= p < a.End();
      assert a in m;
      assert Covers(m, p);
      forall b | b in live
        ensures !(b.head <= p < b.End())
      {
        assert b in m && b != a;
      }
    } else if lo <= p < hi {
      assert Covers(m, p);
      var a :| a in m && a.head <= p < a.End();
      assert a in live;
    }
  }

  lemma FreeBlockIsRun(free: Blocks, live: Blocks, lo: nat, hi: nat, b: Block)
    requires free !! live && Tiles(free + live, lo, hi) && b in free
    ensures FreeRun(live, lo, hi, b.head, b.order)
  {
    hide Aligned, Pow2;
    var m := free + live;
    assert b in m;
    assert Covers(m, b.head) && Covers(m, b.End() - 1);
    forall p: nat | b.head <= p < b.End()
      ensures !Covers(live, p)
    {
      assert Covers(free, p);
      FreeIsNotLive(free, live, lo, hi, p);
    }
  }

  lemma FreeRunInOneBlock(free: Blocks, live: Blocks, lo: nat, hi: nat, h: nat, k: nat) returns (b: Block)
    requires Coalesced(free, live, lo, hi) && FreeRun(live, lo, hi, h, k)
    ensures b in free && Holds(b, h, k)
  {
    forall p: nat | h <= p < h + Pow2(k)
      ensures Covers(free, p)
    {
      FreeIsNotLive(free, live, lo, hi, p);
    }
    b := RunInOneBlock(free, h, k);
  }

  // Memory runs out for order k only when no aligned run of 2^k pages is free.
  lemma RunNeedsBlock(free: Blocks, live: Blocks, lo: nat, hi: nat, k: nat)
    requires Coalesced(free, live, lo, hi) && k <= MAX_ORDER
    ensures HasFreeRun(live, lo, hi, k) <==> exists b :: b in free && k <= b.order
  {
    hide Pow2, Covers, Disjoint, NoBuddies;
    if HasFreeRun(live, lo, hi, k) {
      var h: nat :| FreeRun(live, lo, hi, h, k);
      var b := FreeRunInOneBlock(free, live, lo, hi, h, k);
    }
    if b :| b in free && k <= b.order {
      assert b in free + live;
      FreeBlockIsRun(free, live, lo, hi, b);
      AlignedDown(b.head, k, b.order);
      SubRun(live, lo, hi, b.head, b.order, b.head, k);
    }
  }

  lemma FreeIsMaximal(free: Blocks, live: Blocks, lo: nat, hi: nat, b: Block)
    requires Coalesced(free, live, lo, hi) && b in free
    ensures MaximalRun(live, lo, hi, b.head, b.order)
  {
    hide Aligned, Pow2;
    var h, k := b.head, b.order;
    assert forall x :: x in free ==> x in free + live;
    FreeBlockIsRun(free, live, lo, hi, b);
    BuddyFacts(h, k);
    if k < MAX_ORDER && FreeRun(live, lo, hi, Parent(h, k), k + 1) {
      var c := FreeRunInOneBlock(free, live, lo, hi, Parent(h, k), k + 1);
      assert false;
    }
  }

  lemma SubRun(live: Blocks, lo: nat, hi: nat, b: nat, j: nat, q: nat, k: nat)
    requires FreeRun(live, lo, hi, b, j) && k <= j && Aligned(q, k)
    requires b < q + Pow2(k) && q < b + Pow2(j)
    ensures FreeRun(live, lo, hi, q, k)
  {
    Nested(q, k, b, j);
  }

  lemma MaximalIsFree(free: Blocks, live: Blocks, lo: nat, hi: nat, h: nat, k: nat)
    requires Coalesced(free, live, lo, hi) && MaximalRun(live, lo, hi, h, k)
    ensures Block(h, k) in free
  {
    hide Aligned, Pow2;
    var b := FreeRunInOneBlock(free, live, lo, hi, h, k);
    FreeBlockIsRun(free, live, lo, hi, b);
    BuddyFacts(h, k);
    if k < b.order {
      SubRun(live, lo, hi, b.head, b.order, Parent(h, k), k + 1);
      assert false;
    }
  }

  // The free blocks are exactly the maximal aligned free runs.
  lemma FreeIffMaximal(free: Blocks, live: Blocks, lo: nat, hi: nat, h: nat, k: nat)
    requires Coalesced(free, live, lo, hi)
    ensures Block(h, k) in free <==> MaximalRun(live, lo, hi, h, k)
  {
    if Block(h, k) in free {
      FreeIsMaximal(free, live, lo, hi, Block(h, k));
    }
    if MaximalRun(live, lo, hi, h, k) {
      MaximalIsFree(free, live, lo, hi, h, k);
    }
  }

  // The free blocks are a function of the outstanding blocks alone, so whatever
  // order blocks were split, handed out and given back in does not matter.
  lemma FreeDeterminedByLive(free: Blocks, free': Blocks, live: Blocks, lo: nat, hi: nat)
    requires Coalesced(free, live, lo, hi) && Coalesced(free', live, lo, hi)
    ensures free == free'
  {
    forall b: Block
      ensures b in free <==> b in free'
    {
      FreeIffMaximal(free, live, lo, hi, b.head, b.order);
      FreeIffMaximal(free', live, lo, hi, b.head, b.order);
    }
  }

  // ------------------------------------------------------ splitting and merging

  // m' is m with the block h of order k+1 replaced by its two halves.
  ghost predicate Halves(m: Blocks, m': Blocks, h: nat, k: nat) {
    && Block(h, k + 1) in m
    && m' == m - {Block(h, k + 1)} + {Block(h, k), Block(h + Pow2(k), k)}
  }

  lemma HalvesCover(m: Blocks, m': Blocks, h: nat, k: nat, p: nat)
    requires Halves(m, m', h, k)
    ensures Covers(m', p) <==> Covers(m, p)
  {
    hide Aligned, Pow2;
    Pow2Succ(k);
    var whole, low, high := Block(h, k + 1), Block(h, k), Block(h + Pow2(k), k);
    if Covers(m, p) {
      var b :| b in m && b.head <= p < b.End();
      var b' := if b != whole then b else if p < h + Pow2(k) then low else high;
      assert b' in m' && b'.head <= p < b'.End();
    }
    if Covers(m', p) {
      var b :| b in m' && b.head <= p < b.End();
      var b' := if b == low || b == high then whole else b;
      assert b' in m && b'.head <= p < b'.End();
    }
  }

  lemma SplitDisjoint(m: Blocks, m': Blocks, h: nat, k: nat)
    requires AllAligned(m) && Disjoint(m) && Halves(m, m', h, k)
    ensures AllAligned(m') && Disjoint(m') && Block(h, k) !in m && Block(h + Pow2(k), k) !in m
  {
    hide Aligned, Pow2;
    Pow2Succ(k);
    AlignedDown(h, k, k + 1);
    AlignedEnd(h, k);
    var whole, low, high := Block(h, k + 1), Block(h, k), Block(h + Pow2(k), k);
    forall a, b | a in m' && b in m' && a != b
      ensures a.End() <= b.head || b.End() <= a.head
    {
      var a' := if a == low || a == high then whole else a;
      var b' := if b == low || b == high then whole else b;
      assert a' in m && b' in m;
      assert a' != b' ==> a'.End() <= b'.head || b'.End() <= a'.head;
    }
  }

  lemma Split(m: Blocks, m': Blocks, h: nat, k: nat, lo: nat, hi: nat)
    requires Tiles(m, lo, hi) && Halves(m, m', h, k)
    ensures Tiles(m', lo, hi)
    ensures Block(h, k) !in m && Block(h + Pow2(k), k) !in m
  {
    hide Aligned, Pow2, Covers, AllAligned, Disjoint;
    SplitDisjoint(m, m', h, k);
    forall p: nat
      ensures Covers(m', p) <==> Covers(m, p)
    {
      HalvesCover(m, m', h, k, p);
    }
  }

  lemma MergeDisjoint(m: Blocks, m': Blocks, h: nat, k: nat)
    requires AllAligned(m) && Disjoint(m) && Halves(m', m, h, k)
    requires Block(h, k) !in m' && Block(h + Pow2(k), k) !in m'
    requires k < MAX_ORDER && Aligned(h, k + 1)
    ensures AllAligned(m') && Disjoint(m')
  {
    hide Aligned, Pow2;
    Pow2Succ(k);
    var whole, low, high := Block(h, k + 1), Block(h, k), Block(h + Pow2(k), k);
    forall b | b in m' && b != whole
      ensures b in m && b != low && b != high
      ensures b.End() <= h || h + Pow2(k + 1) <= b.head
    {
      assert b.End() <= low.head || low.End() <= b.head;
      assert b.End() <= high.head || high.End() <= b.head;
    }
  }

  lemma Merge(m: Blocks, m': Blocks, h: nat, k: nat, lo: nat, hi: nat)
    requires Tiles(m, lo, hi) && Halves(m', m, h, k)
    requires Block(h, k) !in m' && Block(h + Pow2(k), k) !in m'
    requires k < MAX_ORDER && Aligned(h, k + 1)
    ensures Tiles(m', lo, hi)
  {
    hide Aligned, Pow2, Covers, AllAligned, Disjoint;
    MergeDisjoint(m, m', h, k);
    forall p: nat
      ensures Covers(m', p) <==> Covers(m, p)
    {
      HalvesCover(m', m, h, k, p);
    }
  }

  // ------------------------------------------------------ steps on free and live blocks

  // Block b is in hand: off the free lists, not outstanding.
  ghost predicate InHand(free: Blocks, live: Blocks, b: Block, lo: nat, hi: nat) {
    && free !! live && b !in free && b !in live
    && Tiles(free + live + {b}, lo, hi)
    && NoBuddies(free)
  }

  // The two halves of a block that is not whole.
  lemma BuddyOutside(m: Blocks, b: Block)
    requires AllAligned(m) && Disjoint(m) && b in m && b.order < MAX_ORDER && HasBuddy(m, b)
    ensures Parent(b.head, b.order) >= 0
    ensures Block(Parent(b.head, b.order), b.order + 1) !in m
  {
    hide Aligned, Pow2;
    BuddyFacts(b.head, b.order);
    Pow2Succ(b.order);
    var q := Block(Parent(b.head, b.order), b.order + 1);
    assert q in m ==> q.End() <= b.head || b.End() <= q.head;
  }

  lemma AbsorbBuddy(free: Blocks, live: Blocks, b: Block, lo: nat, hi: nat) returns (c: Block, q: Block)
    requires InHand(free, live, b, lo, hi) && HasBuddy(free, b)
    ensures Parent(b.head, b.order) >= 0
    ensures c == Block(BuddyOf(b.head, b.order), b.order) && c in free
    ensures q == Block(Parent(b.head, b.order), b.order + 1)
    ensures InHand(free - {c}, live, q, lo, hi)
  {
    hide Aligned, Pow2, Covers, BuddyOf, Parent, Disjoint;
    var m := free + live + {b};
    assert b in m && HasBuddy(m, b);
    BuddyFacts(b.head, b.order);
    BuddyOutside(m, b);
    c, q := Block(BuddyOf(b.head, b.order), b.order), Block(Parent(b.head, b.order), b.order + 1);
    var m' := (free - {c}) + live + {q};
    assert c in free && c != b && c !in live;
    assert m == m' - {q} + {b, c};
    assert {b, c} == {Block(q.head, b.order), Block(q.head + Pow2(b.order), b.order)};
    Merge(m, m', q.head, b.order, lo, hi);
  }

  lemma FewerNoBuddies(free: Blocks, b: Block)
    requires NoBuddies(free)
    ensures NoBuddies(free - {b})
  {
    hide Pow2, BuddyOf;
    assert forall x :: x in free ==> !HasBuddy(free, x);
  }

  lemma AddWithoutBuddy(free: Blocks, b: Block)
    requires NoBuddies(free) && AllAligned(free) && Aligned(b.head, b.order) && !HasBuddy(free, b)
    ensures NoBuddies(free + {b})
  {
    hide Pow2, BuddyOf, Aligned;
    BuddyFacts(b.head, b.order);
    forall x | x in free + {b}
      ensures !HasBuddy(free + {b}, x)
    {
      BuddyFacts(x.head, x.order);
      assert x in free ==> !HasBuddy(free, x);
    }
  }

  lemma PutBack(free: Blocks, live: Blocks, b: Block, lo: nat, hi: nat)
    requires InHand(free, live, b, lo, hi) && !HasBuddy(free, b)
    ensures Coalesced(free + {b}, live, lo, hi)
  {
    hide Pow2, Covers, BuddyOf, Aligned, NoBuddies, Disjoint, HasBuddy;
    assert free + live + {b} == (free + {b}) + live;
    assert forall x :: x in free + {b} ==> x in free + live + {b};
    AddWithoutBuddy(free, b);
  }

  // One cleaving: the first block of some list is replaced by its two halves,
  // of which the upper one is the only block that may now have a buddy.
  lemma CleaveBlock(free: Blocks, live: Blocks, h: nat, k: nat, lo: nat, hi: nat) returns (f: Blocks)
    requires free !! live && Tiles(free + live, lo, hi)
    requires Block(h, k + 1) in free && NoBuddies(free - {Block(h, k + 1)})
    ensures Block(h, k) !in free + live && Block(h + Pow2(k), k) !in free + live
    ensures f == free - {Block(h, k + 1)} + {Block(h, k), Block(h + Pow2(k), k)} && f !! live
    ensures Tiles(f + live, lo, hi)
    ensures NoBuddies(f - {Block(h + Pow2(k), k)})
  {
    hide Pow2, Covers, Disjoint, Aligned, NoBuddies, BuddyOf, HasBuddy;
    var whole, low, high := Block(h, k + 1), Block(h, k), Block(h + Pow2(k), k);
    var m, g := free + live, free - {Block(h, k + 1)};
    f := g + {low, high};
    assert whole in m;
    Split(m, m - {whole} + {low, high}, h, k, lo, hi);
    assert f + live == m - {whole} + {low, high};
    assert f - {high} == g + {low} by { assert low != high; }
    assert forall x :: x in g ==> x in m;
    AlignedDown(h, k, k + 1);
    BuddyNotKept(g, h, k);
    AddWithoutBuddy(g, low);
  }

  lemma BuddyNotKept(g: Blocks, h: nat, k: nat)
    requires Aligned(h, k + 1) && Block(h + Pow2(k), k) !in g
    ensures !HasBuddy(g, Block(h, k))
  {
    BuddyOfParent(h, k);
  }

  // A free block moves to the outstanding ones; it was a free run until now.
  lemma HandOut(free: Blocks, live: Blocks, b: Block, lo: nat, hi: nat)
    requires free !! live && Tiles(free + live, lo, hi)
    requires b in free && NoBuddies(free - {b})
    ensures Coalesced(free - {b}, live + {b}, lo, hi)
    ensures FreeRun(live, lo, hi, b.head, b.order)
  {
    assert (free - {b}) + (live + {b}) == free + live;
    FreeBlockIsRun(free, live, lo, hi, b);
  }

  // An outstanding block is taken back.
  lemma TakeBack(free: Blocks, live: Blocks, b: Block, lo: nat, hi: nat)
    requires Coalesced(free, live, lo, hi) && b in live
    ensures InHand(free, live - {b}, b, lo, hi)
  {
    assert free + (live - {b}) + {b} == free + live;
  }

  // ------------------------------------------------------ a growing zone

  lemma NothingYet(free: Blocks, live: Blocks, lo: nat)
    requires free == {} && live == {}
    ensures Coalesced(free, live, lo, lo)
  {
    assert free + live == {};
  }

  lemma EndsWithin(m: Blocks, lo: nat, hi: nat, b: Block)
    requires Tiles(m, lo, hi) && b in m
    ensures lo <= b.head < b.End() <= hi
  {
    hide Aligned, Pow2;
    assert Covers(m, b.End() - 1) && Covers(m, b.head);
  }

  lemma AppendCovers(m: Blocks, k: nat, lo: nat, hi: nat, p: nat)
    requires Tiles(m, lo, hi) && lo <= hi
    ensures Covers(m + {Block(hi, k)}, p) <==> lo <= p < hi + Pow2(k)
  {
    hide Aligned, Pow2, AllAligned, Disjoint;
    var m' := m + {Block(hi, k)};
    if lo <= p < hi {
      assert Covers(m, p);
      var b :| b in m && b.head <= p < b.End();
      assert b in m';
    } else if hi <= p < hi + Pow2(k) {
      assert Block(hi, k) in m';
    }
    if Covers(m', p) {
      var b :| b in m' && b.head <= p < b.End();
      assert b in m ==> Covers(m, p);
    }
  }

  lemma AppendTiles(m: Blocks, k: nat, lo: nat, hi: nat)
    requires Tiles(m, lo, hi) && lo <= hi && Aligned(hi, k) && k <= MAX_ORDER
    ensures Block(hi, k) !in m && Tiles(m + {Block(hi, k)}, lo, hi + Pow2(k))
  {
    hide Aligned, Pow2, Covers;
    forall b | b in m
      ensures b.End() <= hi && b.head < hi
    {
      EndsWithin(m, lo, hi, b);
    }
    var m' := m + {Block(hi, k)};
    assert AllAligned(m') && Disjoint(m');
    forall p: nat
      ensures Covers(m', p) <==> lo <= p < hi + Pow2(k)
    {
      AppendCovers(m, k, lo, hi, p);
    }
  }

  // A further outstanding block of order k is appended after the last page.
  lemma Append(free: Blocks, live: Blocks, k: nat, lo: nat, hi: nat)
    requires Coalesced(free, live, lo, hi) && lo <= hi && Aligned(hi, k) && k <= MAX_ORDER
    ensures Block(hi, k) !in free && Block(hi, k) !in live
    ensures Coalesced(free, live + {Block(hi, k)}, lo, hi + Pow2(k))
  {
    hide NoBuddies, Tiles;
    AppendTiles(free + live, k, lo, hi);
    assert free + (live + {Block(hi, k)}) == (free + live) + {Block(hi, k)};
  }
}
