// src/mm/mmap.c: the memory areas of a process, a circular doubly linked list
// entered at mm->vma and kept in the order of their start addresses.
module VmaRing {
  import opened Lists
  import opened Wrappers

  const STACK_TOP: nat := 0xC000_0000     // __3G
  const STACK_SPAN: nat := 0x10_0000      // __1M

  class VmArea {
    const start: nat
    var end: nat
    var next: VmArea
    var prev: VmArea

    constructor (start: nat, end: nat)
      ensures this.start == start && this.end == end && next == this && prev == this
    {
      this.start, this.end := start, end;
      next, prev := this, this;
    }
  }

  class Mm {
    var vma: VmArea
    ghost var ring: seq<VmArea>     // once around, from vma on

    ghost predicate Valid()
      reads this, ring`next, ring`prev
    {
      && ring != [] && ring[0] == vma && Distinct(ring) && Circular(ring)
      && Ascending(ring)
    }

    // mk_stack_area: the ring of a new process is its stack area alone.
    constructor ()
      ensures Valid() && fresh(vma) && ring == [vma]
      ensures vma.start == STACK_TOP - STACK_SPAN && vma.end == STACK_TOP
    {
      var stack := new VmArea(STACK_TOP - STACK_SPAN, STACK_TOP);
      vma := stack;
      ring := [stack];
    }

    // insert_vm_area: before the first area that starts later, else before the root.
    method InsertVmArea(area: VmArea)
      requires Valid() && area !in ring
      modifies this, ring`next, ring`prev, area`next, area`prev
      ensures Valid() && ring == Placed(old(ring), area)
    {
      hide Ascending, Placed;
      var root := vma;
      var node := vma;
      ghost var k := 0;
      OnceEach();
      while true
        invariant Valid() && vma == root && 0 <= k < |ring| && node == ring[k]
        invariant forall i :: 0 <= i < k ==> ring[i].start <= area.start
        decreases |ring| - k
        modifies {}
      {
        if node.start > area.start { break; }
        node, k := node.next, k + 1;
        if node == root { break; }
      }
      RankIs(ring, area.start, k);
      Link(area, node, k);
    }

    // The last five statements of insert_vm_area.
    method Link(area: VmArea, node: VmArea, ghost k: nat)
      requires Valid() && area !in ring && k == Rank(ring, area.start)
      requires node == if k < |ring| then ring[k] else vma
      modifies this, area`next, area`prev, node`prev, node.prev`next
      ensures Valid() && ring == Placed(old(ring), area)
    {
      hide Ascending, Rank, Distinct, Insert, Placed;
      ghost var was := ring;
      OnceEach();
      PlacedAscends(ring, area);
      PlacedDistinct(ring, area);
      if area.start < vma.start { vma := area; }
      area.next := node;
      area.prev := node.prev;
      node.prev := area;
      area.prev.next := area;
      ring := Placed(ring, area);
      assert OpenCircle(was, k, area);
      Closed(was, k, area);
      PlacedRoot(was, area, k);
    }

    // find_vma: the first area that ends above addr.
    method FindVma(addr: nat) returns (found: Option<VmArea>, ghost k: nat)
      requires Valid()
      ensures k <= |ring| && forall i :: 0 <= i < k ==> ring[i].end <= addr
      ensures found == if k < |ring| then Some(ring[k]) else None
      ensures k < |ring| ==> ring[k].end > addr
      ensures found.None? <==> forall a :: a in ring ==> a.end <= addr
      ensures found.Some? ==> found.value in ring && found.value.end > addr
    {
      var node := vma;
      k := 0;
      while true
        invariant 0 <= k < |ring| && node == ring[k]
        invariant forall i :: 0 <= i < k ==> ring[i].end <= addr
        decreases |ring| - k
      {
        if node.end > addr {
          assert node in ring;
          return Some(node), k;
        }
        node, k := node.next, k + 1;
        if node == vma { return None, k; }
      }
    }

    // find_vma_intersection: the lowest area meeting the range, if one does at all.
    method FindIntersection(start: nat, end: nat) returns (found: Option<VmArea>)
      requires Valid()
      ensures found.None? <==> forall a :: a in ring ==> !Meets(a, start, end)
      ensures found.Some? ==>
        && found.value in ring && Meets(found.value, start, end)
        && forall a :: a in ring && Meets(a, start, end) ==> found.value.start <= a.start
      ensures found.None? <==> forall a :: a in ring ==> a.end <= start || end <= a.start
      ensures found.Some? ==> start < found.value.end && found.value.start < end
    {
      var beneath, k := FindVma(start);
      if beneath.Some? && beneath.value.start < end {
        found := beneath;
        assert ring[k] in ring && Meets(ring[k], start, end);
      } else {
        found := None;
      }
    }

    // vm_area_expand: grows the area unless another one is in the way.
    method VmAreaExpand(area: VmArea, newEnd: nat) returns (ok: bool)
      requires Valid() && area in ring && newEnd > area.end
      modifies area`end
      ensures Valid()
      ensures ok <==> forall a :: a in ring ==> !old(Meets(a, area.end, newEnd))
      ensures ok <==> forall a :: a in ring ==> old(a.end) <= old(area.end) || newEnd <= a.start
      ensures area.end == if ok then newEnd else old(area.end)
      ensures old(Apart(ring)) ==> Apart(ring)
    {
      hide Distinct, Ascending, Circular;
      var found := FindIntersection(area.end, newEnd);
      ok := found.None?;
      if ok {
        if Apart(ring) { RoomAbove(ring, area, newEnd); }
        area.end := newEnd;
      }
    }

    lemma OnceEach()
      requires Valid()
      ensures forall i, j :: 0 <= i < |ring| && 0 <= j < |ring| && i != j ==> ring[i] != ring[j]
    {}
  }

  // The area and the range [start, end) share an address (neither is empty).
  ghost predicate Meets(a: VmArea, start: nat, end: nat)
    reads a`end
  {
    start < a.end && a.start < end
  }

  // No area is empty, and none shares an address with another.
  ghost predicate Apart(ring: seq<VmArea>)
    reads ring`end
  {
    && (forall i :: 0 <= i < |ring| ==> ring[i].start < ring[i].end)
    && (forall i, j :: 0 <= i < j < |ring| ==> ring[i].end <= ring[j].start)
  }

  ghost predicate Circular(ring: seq<VmArea>)
    reads ring`next, ring`prev
  {
    && (forall i {:trigger ring[i].next} :: 0 <= i < |ring| ==>
          ring[i].next == ring[if i + 1 < |ring| then i + 1 else 0])
    && (forall i {:trigger ring[i].prev} :: 0 <= i < |ring| ==>
          ring[i].prev == ring[if i > 0 then i - 1 else |ring| - 1])
  }

  ghost predicate Ascending(ring: seq<VmArea>) {
    forall i, j :: 0 <= i < j < |ring| ==> ring[i].start <= ring[j].start
  }

  // How many areas, from the front, start no later than s.
  ghost function Rank(ring: seq<VmArea>, s: nat): (k: nat)
    ensures k <= |ring|
    ensures forall i :: 0 <= i < k ==> ring[i].start <= s
    ensures k < |ring| ==> ring[k].start > s
  {
    if ring == [] || ring[0].start > s then 0 else 1 + Rank(ring[1..], s)
  }

  lemma RankIs(ring: seq<VmArea>, s: nat, k: nat)
    requires k <= |ring|
    requires forall i :: 0 <= i < k ==> ring[i].start <= s
    requires k < |ring| ==> ring[k].start > s
    ensures k == Rank(ring, s)
  {}

  // A circle with area linked in before position k.
  ghost predicate OpenCircle(ring: seq<VmArea>, k: nat, area: VmArea)
    reads ring, area
  {
    && ring != [] && k <= |ring|
    && var right := if k < |ring| then k else 0;
    && var left := if k > 0 then k - 1 else |ring| - 1;
    && area.next == ring[right] && area.prev == ring[left]
    && ring[left].next == area && ring[right].prev == area
    && (forall i {:trigger ring[i].next} :: 0 <= i < |ring| && i != left ==>
          ring[i].next == ring[if i + 1 < |ring| then i + 1 else 0])
    && (forall i {:trigger ring[i].prev} :: 0 <= i < |ring| && i != right ==>
          ring[i].prev == ring[if i > 0 then i - 1 else |ring| - 1])
  }

  lemma Closed(ring: seq<VmArea>, k: nat, area: VmArea)
    requires OpenCircle(ring, k, area)
    ensures Circular(Insert(ring, k, area))
  {
    hide Insert;
    Shifted(ring, k, area, Insert(ring, k, area));
  }

  lemma PlacedRoot(ring: seq<VmArea>, area: VmArea, k: nat)
    requires ring != [] && k == Rank(ring, area.start)
    ensures Placed(ring, area) == Insert(ring, k, area) && Placed(ring, area) != []
    ensures Placed(ring, area)[0] == if area.start < ring[0].start then area else ring[0]
  {}

  // The area goes behind all that start no later.
  ghost function Placed(ring: seq<VmArea>, area: VmArea): seq<VmArea> {
    Insert(ring, Rank(ring, area.start), area)
  }

  lemma PlacedAscends(ring: seq<VmArea>, area: VmArea)
    requires Ascending(ring)
    ensures Ascending(Placed(ring, area))
  {
    hide Insert;
    Shifted(ring, Rank(ring, area.start), area, Placed(ring, area));
  }

  lemma PlacedDistinct(ring: seq<VmArea>, area: VmArea)
    requires Distinct(ring) && area !in ring
    ensures Distinct(Placed(ring, area))
  {
    hide Insert, Rank;
    Shifted(ring, Rank(ring, area.start), area, Placed(ring, area));
  }

  // A new area that meets no other keeps them all apart.
  lemma PlacedApart(ring: seq<VmArea>, area: VmArea)
    requires Apart(ring) && area.start < area.end
    requires forall a :: a in ring ==> !Meets(a, area.start, area.end)
    ensures Apart(Placed(ring, area))
  {
    hide Insert, Ascending;
    var k, t := Rank(ring, area.start), Placed(ring, area);
    Shifted(ring, k, area, t);
    Beside(ring, area);
    hide Rank;
  }

  lemma RoomAbove(ring: seq<VmArea>, area: VmArea, newEnd: nat)
    requires Apart(ring)
    requires forall a :: a in ring ==> !Meets(a, area.end, newEnd)
    ensures forall i, j :: 0 <= i < j < |ring| && ring[i] == area ==> newEnd <= ring[j].start
  {
    forall i, j | 0 <= i < j < |ring| && ring[i] == area
      ensures newEnd <= ring[j].start
    {
      assert ring[j] in ring && !Meets(ring[j], area.end, newEnd);
    }
  }

  lemma Beside(ring: seq<VmArea>, area: VmArea)
    requires Apart(ring) && area.start < area.end
    requires forall a :: a in ring ==> !Meets(a, area.start, area.end)
    ensures forall i :: 0 <= i < Rank(ring, area.start) ==> ring[i].end <= area.start
    ensures forall i :: Rank(ring, area.start) <= i < |ring| ==> area.end <= ring[i].start
  {
    var k := Rank(ring, area.start);
    forall i | 0 <= i < |ring|
      ensures if i < k then ring[i].end <= area.start else area.end <= ring[i].start
    {
      assert ring[i] in ring && !Meets(ring[i], area.start, area.end);
      if i > k { assert ring[k].end <= ring[i].start; }
    }
  }

  // The ring after a run of insertions.
  ghost function AfterAll(ring: seq<VmArea>, areas: seq<VmArea>): seq<VmArea> {
    if areas == [] then ring
    else Placed(AfterAll(ring, areas[..|areas| - 1]), areas[|areas| - 1])
  }

  ghost function Own(area: VmArea, s: nat): seq<VmArea> {
    if area.start == s then [area] else []
  }

  // The areas that start at s, in their order.
  ghost function StartingAt(areas: seq<VmArea>, s: nat): seq<VmArea> {
    if areas == [] then [] else Own(areas[0], s) + StartingAt(areas[1..], s)
  }

  lemma {:induction false} StartingAtAppend(a: seq<VmArea>, b: seq<VmArea>, s: nat)
    ensures StartingAt(a + b, s) == StartingAt(a, s) + StartingAt(b, s)
  {
    if a == [] {
      assert a + b == b;
    } else {
      hide Own;
      calc {
        StartingAt(a + b, s);
        { assert (a + b)[1..] == a[1..] + b; }
        Own(a[0], s) + StartingAt(a[1..] + b, s);
        { StartingAtAppend(a[1..], b, s); }
        Own(a[0], s) + (StartingAt(a[1..], s) + StartingAt(b, s));
        (Own(a[0], s) + StartingAt(a[1..], s)) + StartingAt(b, s);
      }
    }
  }

  lemma {:induction false} NoneStarting(a: seq<VmArea>, s: nat)
    requires forall x :: x in a ==> x.start != s
    ensures StartingAt(a, s) == []
  {
    if a != [] { NoneStarting(a[1..], s); }
  }

  lemma PlacedStable(ring: seq<VmArea>, area: VmArea, s: nat)
    requires Ascending(ring)
    ensures StartingAt(Placed(ring, area), s) == StartingAt(ring, s) + Own(area, s)
  {
    hide Ascending;
    var k := Rank(ring, area.start);
    var head, tail := ring[..k], ring[k..];
    if s == area.start { LaterBehind(ring, s); }
    hide Own;
    assert StartingAt([area], s) == Own(area, s);
    calc {
      StartingAt(head + [area] + tail, s);
      { StartingAtAppend(head + [area], tail, s); StartingAtAppend(head, [area], s); }
      StartingAt(head, s) + Own(area, s) + StartingAt(tail, s);
      { if s != area.start { assert Own(area, s) == []; } }
      StartingAt(head, s) + StartingAt(tail, s) + Own(area, s);
      { StartingAtAppend(head, tail, s); assert ring == head + tail; }
      StartingAt(ring, s) + Own(area, s);
    }
  }

  lemma LaterBehind(ring: seq<VmArea>, s: nat)
    requires Ascending(ring)
    ensures StartingAt(ring[Rank(ring, s)..], s) == []
  {
    NoneStarting(ring[Rank(ring, s)..], s);
  }

  lemma PlacedHolds(ring: seq<VmArea>, area: VmArea)
    ensures multiset(Placed(ring, area)) == multiset(ring) + multiset{area}
  {
    hide Rank;
    var k := Rank(ring, area.start);
    assert ring == ring[..k] + ring[k..];
  }

  // Whatever is inserted, in whatever order: the ring is the stable sort, by start, of
  // what it held at first followed by what came in.
  lemma {:induction false} AnyRunSorts(ring: seq<VmArea>, areas: seq<VmArea>)
    requires Ascending(ring)
    ensures Ascending(AfterAll(ring, areas))
    ensures multiset(AfterAll(ring, areas)) == multiset(ring + areas)
    ensures forall s: nat :: StartingAt(AfterAll(ring, areas), s) == StartingAt(ring + areas, s)
  {
    hide Ascending, Placed;
    if areas == [] {
      assert ring + areas == ring;
    } else {
      var before, area := areas[..|areas| - 1], areas[|areas| - 1];
      AnyRunSorts(ring, before);
      PlacedHolds(AfterAll(ring, before), area);
      PlacedAscends(AfterAll(ring, before), area);
      assert ring + areas == (ring + before) + [area];
      forall s: nat
        ensures StartingAt(AfterAll(ring, areas), s) == StartingAt(ring + areas, s)
      {
        hide StartingAt;
        PlacedStable(AfterAll(ring, before), area, s);
        StartingAtAppend(ring + before, [area], s);
        OneStarting(area, s);
      }
    }
  }

  lemma OneStarting(area: VmArea, s: nat)
    ensures StartingAt([area], s) == Own(area, s)
  {}

  // An ascending list is determined by the order of its areas start by start.
  lemma {:induction false} SortIsUnique(a: seq<VmArea>, b: seq<VmArea>)
    requires Ascending(a) && Ascending(b)
    requires forall s: nat :: StartingAt(a, s) == StartingAt(b, s)
    ensures a == b
  {
    if a == [] {
      EmptyToo(a, b);
    } else if b == [] {
      EmptyToo(b, a);
    } else {
      FirstNotEarlier(a, b);
      FirstNotEarlier(b, a);
      var s0 := a[0].start;
      assert StartingAt(a, s0)[0] == a[0] && StartingAt(b, s0)[0] == b[0];
      forall s: nat
        ensures StartingAt(a[1..], s) == StartingAt(b[1..], s)
      {
        hide StartingAt;
        RestSame(a, b, s);
      }
      SortIsUnique(a[1..], b[1..]);
    }
  }

  lemma EmptyToo(a: seq<VmArea>, b: seq<VmArea>)
    requires a == []
    requires forall s: nat :: StartingAt(a, s) == StartingAt(b, s)
    ensures b == []
  {
    if b != [] {
      var s := b[0].start;
      var here := StartingAt(b, s);
      assert false;
    }
  }

  lemma RestSame(a: seq<VmArea>, b: seq<VmArea>, s: nat)
    requires a != [] && b != [] && a[0] == b[0] && StartingAt(a, s) == StartingAt(b, s)
    ensures StartingAt(a[1..], s) == StartingAt(b[1..], s)
  {
    var first := Own(a[0], s);
    assert StartingAt(a[1..], s) == StartingAt(a, s)[|first|..];
    assert StartingAt(b[1..], s) == StartingAt(b, s)[|first|..];
  }

  lemma FirstNotEarlier(a: seq<VmArea>, b: seq<VmArea>)
    requires Ascending(b) && a != [] && b != []
    requires forall s: nat :: StartingAt(a, s) == StartingAt(b, s)
    ensures b[0].start <= a[0].start
  {
    if a[0].start < b[0].start {
      NoneStarting(b, a[0].start);
      assert false;
    }
  }
}
