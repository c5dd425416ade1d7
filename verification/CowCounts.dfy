// Pages shared copy-on-write among address spaces, and the counts kept of them: what
// clone_vma (src/kernel/fork.c), the page faults (src/mm/memory.c,
// src/arch/x86/mm/fault.c) and releasing do to the whole system.
module CowCounts {

  // A page table entry; one with value 0 is Absent. No page is swapped out.
  datatype Pte = Absent | Entry(page: nat, writable: bool)

  predicate Maps(e: Pte, p: nat) {
    e.Entry? && e.page == p
  }

  function One(e: Pte, p: nat): nat {
    if Maps(e, p) then 1 else 0
  }

  // How many entries of an address space map page p.
  function Hits(s: seq<Pte>, p: nat): nat {
    if s == [] then 0 else Hits(s[..|s| - 1], p) + One(s[|s| - 1], p)
  }

  // The same for all address spaces.
  function Refs(views: seq<seq<Pte>>, p: nat): nat {
    if views == [] then 0 else Refs(views[..|views| - 1], p) + Hits(views[|views| - 1], p)
  }

  lemma {:induction false} HitsUpdate(s: seq<Pte>, v: nat, e: Pte, p: nat)
    requires v < |s|
    ensures Hits(s[v := e], p) + One(s[v], p) == Hits(s, p) + One(e, p)
  {
    var last := |s| - 1;
    if v < last {
      HitsUpdate(s[..last], v, e, p);
      assert s[v := e][..last] == s[..last][v := e];
    } else {
      assert s[v := e][..last] == s[..last];
    }
  }

  lemma {:induction false} RefsUpdate(views: seq<seq<Pte>>, a: nat, s: seq<Pte>, p: nat)
    requires a < |views|
    ensures Refs(views[a := s], p) + Hits(views[a], p) == Refs(views, p) + Hits(s, p)
  {
    var last := |views| - 1;
    if a < last {
      RefsUpdate(views[..last], a, s, p);
      assert views[a := s][..last] == views[..last][a := s];
    } else {
      assert views[a := s][..last] == views[..last];
    }
  }

  // Changing one entry of one space.
  function Put(views: seq<seq<Pte>>, a: nat, v: nat, e: Pte): seq<seq<Pte>>
    requires a < |views| && v < |views[a]|
  {
    views[a := views[a][v := e]]
  }

  lemma RefsPut(views: seq<seq<Pte>>, a: nat, v: nat, e: Pte, p: nat)
    requires a < |views| && v < |views[a]|
    ensures Refs(Put(views, a, v, e), p) + One(views[a][v], p) == Refs(views, p) + One(e, p)
  {
    RefsUpdate(views, a, views[a][v := e], p);
    HitsUpdate(views[a], v, e, p);
  }

  // With two entries on a page it is referred to at least twice.
  lemma TwoRefs(views: seq<seq<Pte>>, a: nat, v: nat, b: nat, w: nat, p: nat)
    requires a < |views| && v < |views[a]| && b < |views| && w < |views[b]| && (a != b || v != w)
    requires Maps(views[a][v], p) && Maps(views[b][w], p)
    ensures Refs(views, p) >= 2
  {
    RefsPut(views, a, v, Absent, p);
    RefsPut(Put(views, a, v, Absent), b, w, Absent, p);
  }

  lemma OneRef(views: seq<seq<Pte>>, a: nat, v: nat, p: nat)
    requires a < |views| && v < |views[a]| && Maps(views[a][v], p)
    ensures Refs(views, p) >= 1
  {
    RefsPut(views, a, v, Absent, p);
  }

  // All address spaces and the count of every page.
  datatype System = System(views: seq<seq<Pte>>, count: seq<nat>)

  predicate HasEntry(s: System, a: int, v: int) {
    0 <= a < |s.views| && 0 <= v < |s.views[a]| && s.views[a][v].Entry?
  }

  // Every page is counted exactly.
  ghost predicate Exact(s: System) {
    && (forall a, v :: HasEntry(s, a, v) ==> s.views[a][v].page < |s.count|)
    && (forall p :: 0 <= p < |s.count| ==> s.count[p] == Refs(s.views, p))
  }

  // And what is mapped writable is mapped only there, but for the pages of shared areas.
  ghost predicate Sound(s: System, open: set<nat>) {
    && Exact(s)
    && (forall a, v :: HasEntry(s, a, v) && s.views[a][v].writable && s.views[a][v].page !in open ==>
          s.count[s.views[a][v].page] == 1)
  }

  // A page counted once is seen at one address only.
  lemma CountedOnce(s: System, a: nat, v: nat, b: nat, w: nat)
    requires Exact(s) && HasEntry(s, a, v) && s.count[s.views[a][v].page] == 1
    requires HasEntry(s, b, w) && (a != b || v != w)
    ensures s.views[b][w].page != s.views[a][v].page
  {
    if s.views[b][w].page == s.views[a][v].page {
      TwoRefs(s.views, a, v, b, w, s.views[a][v].page);
    }
  }

  // So a store through a writable entry is seen at no other address of any space, unless its
  // page is a shared area's.
  lemma StoreIsPrivate(s: System, open: set<nat>, a: nat, v: nat, b: nat, w: nat)
    requires Sound(s, open) && HasEntry(s, a, v) && s.views[a][v].writable && s.views[a][v].page !in open
    requires HasEntry(s, b, w) && (a != b || v != w)
    ensures s.views[b][w].page != s.views[a][v].page
  {
    CountedOnce(s, a, v, b, w);
  }

  function ReadOnly(e: Pte): Pte
    requires e.Entry?
  {
    Entry(e.page, false)
  }

  // A fault on an absent page: a new page, counted once.
  function Resolved(s: System, a: nat, v: nat, page: nat, writable: bool): System
    requires a < |s.views| && v < |s.views[a]| && page < |s.count|
  {
    System(Put(s.views, a, v, Entry(page, writable)), s.count[page := 1])
  }

  lemma ResolvedExact(s: System, a: nat, v: nat, page: nat, writable: bool)
    requires Exact(s) && a < |s.views| && v < |s.views[a]| && s.views[a][v] == Absent
    requires page < |s.count| && s.count[page] == 0
    ensures Exact(Resolved(s, a, v, page, writable))
  {
    var t := Resolved(s, a, v, page, writable);
    forall p | 0 <= p < |t.count|
      ensures t.count[p] == Refs(t.views, p)
    {
      RefsPut(s.views, a, v, Entry(page, writable), p);
    }
    OneChanged(s, a, v, Entry(page, writable));
  }

  // What the three operations on one page do to the entry of that page, all others being kept.
  lemma EntryAfter(s: System, a: nat, v: nat, page: nat, writable: bool, b: nat, w: nat)
    requires a < |s.views| && v < |s.views[a]| && page < |s.count| && b < |s.views| && w < |s.views[b]|
    ensures
      var here, t := a == b && v == w, Resolved(s, a, v, page, writable);
      && t.views[b][w] == (if here then Entry(page, writable) else s.views[b][w])
      && t.count[page] == 1
    ensures HasEntry(s, a, v) && s.views[a][v].page < |s.count| && s.count[s.views[a][v].page] >= 1 ==>
      var here, p := a == b && v == w, s.views[a][v].page;
      && Released(s, a, v).views[b][w] == (if here then Absent else s.views[b][w])
      && Released(s, a, v).count[p] == s.count[p] - 1
      && Faulted(s, a, v, page).views[b][w] ==
         (if here then Entry(if s.count[p] == 1 then p else page, true) else s.views[b][w])
  {}

  // The pages of shared areas after a new page has been mapped for one, or for another.
  function Opened(open: set<nat>, page: nat, shared: bool): set<nat> {
    if shared then open + {page} else open - {page}
  }

  lemma ResolvedSound(s: System, open: set<nat>, a: nat, v: nat, page: nat, writable: bool, shared: bool)
    requires Sound(s, open) && a < |s.views| && v < |s.views[a]| && s.views[a][v] == Absent
    requires page < |s.count| && s.count[page] == 0
    ensures Sound(Resolved(s, a, v, page, writable), Opened(open, page, shared))
  {
    ResolvedExact(s, a, v, page, writable);
    NotMapped(s, page);
    OneChanged(s, a, v, Entry(page, writable));
  }

  lemma OneChanged(s: System, a: nat, v: nat, e: Pte)
    requires a < |s.views| && v < |s.views[a]|
    ensures
      var t := Put(s.views, a, v, e);
      && |t| == |s.views| && |t[a]| == |s.views[a]| && t[a][v] == e
      && forall b, w :: HasEntry(System(t, s.count), b, w) && (b != a || w != v) ==>
        HasEntry(s, b, w) && t[b][w] == s.views[b][w]
  {}

  lemma NotMapped(s: System, page: nat)
    requires Exact(s) && page < |s.count| && s.count[page] == 0
    ensures forall b, w :: HasEntry(s, b, w) ==> s.views[b][w].page != page
  {
    forall b, w | HasEntry(s, b, w)
      ensures s.views[b][w].page != page
    {
      if s.views[b][w].page == page { OneRef(s.views, b, w, page); }
    }
  }

  // The mapping undone, the page freed when nobody is left.
  function Released(s: System, a: nat, v: nat): System
    requires HasEntry(s, a, v) && s.views[a][v].page < |s.count| && s.count[s.views[a][v].page] >= 1
  {
    var p := s.views[a][v].page;
    System(Put(s.views, a, v, Absent), s.count[p := s.count[p] - 1])
  }

  lemma ReleasedExact(s: System, a: nat, v: nat)
    requires Exact(s) && HasEntry(s, a, v)
    ensures s.count[s.views[a][v].page] >= 1 && Exact(Released(s, a, v))
  {
    OneRef(s.views, a, v, s.views[a][v].page);
    var t := Released(s, a, v);
    forall q | 0 <= q < |t.count|
      ensures t.count[q] == Refs(t.views, q)
    {
      RefsPut(s.views, a, v, Absent, q);
    }
    OneChanged(s, a, v, Absent);
  }

  lemma ReleasedSound(s: System, open: set<nat>, a: nat, v: nat)
    requires Sound(s, open) && HasEntry(s, a, v)
    ensures s.count[s.views[a][v].page] >= 1 && Sound(Released(s, a, v), open)
  {
    ReleasedExact(s, a, v);
    var p, t := s.views[a][v].page, Released(s, a, v);
    OneChanged(s, a, v, Absent);
    forall b, w | HasEntry(t, b, w) && t.views[b][w].writable && t.views[b][w].page !in open
      ensures t.count[t.views[b][w].page] == 1
    {
      if t.views[b][w].page == p { TwoRefs(s.views, a, v, b, w, p); }
    }
  }

  // The write fault on a private page: made writable where it is alone, else a copy is.
  function Faulted(s: System, a: nat, v: nat, copy: nat): System
    requires HasEntry(s, a, v) && s.views[a][v].page < |s.count| && s.count[s.views[a][v].page] >= 1
    requires copy < |s.count|
  {
    var p := s.views[a][v].page;
    if s.count[p] == 1 then System(Put(s.views, a, v, Entry(p, true)), s.count)
    else System(Put(s.views, a, v, Entry(copy, true)), s.count[p := s.count[p] - 1][copy := 1])
  }

  lemma FaultedExact(s: System, a: nat, v: nat, copy: nat)
    requires Exact(s) && HasEntry(s, a, v) && copy < |s.count|
    requires s.count[s.views[a][v].page] != 1 ==> s.count[copy] == 0
    ensures s.count[s.views[a][v].page] >= 1 && Exact(Faulted(s, a, v, copy))
  {
    OneRef(s.views, a, v, s.views[a][v].page);
    var t := Faulted(s, a, v, copy);
    var e := t.views[a][v];
    OneChanged(s, a, v, e);
    forall q | 0 <= q < |t.count|
      ensures t.count[q] == Refs(t.views, q)
    {
      RefsPut(s.views, a, v, e, q);
    }
  }

  lemma FaultedSound(s: System, open: set<nat>, a: nat, v: nat, copy: nat)
    requires Sound(s, open) && HasEntry(s, a, v) && copy < |s.count|
    requires s.count[s.views[a][v].page] != 1 ==> s.count[copy] == 0
    ensures s.count[s.views[a][v].page] >= 1 && Sound(Faulted(s, a, v, copy), open)
  {
    FaultedExact(s, a, v, copy);
    var p, t := s.views[a][v].page, Faulted(s, a, v, copy);
    OneChanged(s, a, v, t.views[a][v]);
    if s.count[p] != 1 { NotMapped(s, copy); }
    forall b, w | HasEntry(t, b, w) && t.views[b][w].writable && t.views[b][w].page !in open
      ensures t.count[t.views[b][w].page] == 1
    {
      if (b != a || w != v) && t.views[b][w].page == p { TwoRefs(s.views, a, v, b, w, p); }
    }
  }

  // One page of clone_vma, from space a to space b.
  function PageCloned(s: System, a: nat, b: nat, v: nat, cow: bool): System
    requires a < |s.views| && b < |s.views| && v < |s.views[a]| && v < |s.views[b]|
    requires s.views[a][v].Entry? ==> s.views[a][v].page < |s.count|
  {
    if s.views[a][v] == Absent then s
    else
      var e := if cow then ReadOnly(s.views[a][v]) else s.views[a][v];
      var views := Put(s.views, a, v, e);
      System(Put(views, b, v, e), s.count[e.page := s.count[e.page] + 1])
  }

  lemma PageClonedExact(s: System, a: nat, b: nat, v: nat, cow: bool)
    requires Exact(s) && a < |s.views| && b < |s.views| && a != b && v < |s.views[a]| && v < |s.views[b]|
    requires s.views[b][v] == Absent
    ensures s.views[a][v].Entry? ==> HasEntry(s, a, v)
    ensures Exact(PageCloned(s, a, b, v, cow))
  {
    if s.views[a][v].Entry? {
      var e := if cow then ReadOnly(s.views[a][v]) else s.views[a][v];
      var t := PageCloned(s, a, b, v, cow);
      assert HasEntry(s, a, v);
      BothChanged(s, a, b, v, e);
      forall q | 0 <= q < |t.count|
        ensures t.count[q] == Refs(t.views, q)
      {
        RefsPut(s.views, a, v, e, q);
        RefsPut(Put(s.views, a, v, e), b, v, e, q);
      }
    }
  }

  // An entry that may be copied as it is.
  predicate Copyable(e: Pte, open: set<nat>) {
    e.Entry? && e.writable ==> e.page in open
  }

  lemma PageClonedSound(s: System, open: set<nat>, a: nat, b: nat, v: nat, cow: bool)
    requires Sound(s, open) && a < |s.views| && b < |s.views| && a != b && v < |s.views[a]| && v < |s.views[b]|
    requires s.views[b][v] == Absent && (cow || Copyable(s.views[a][v], open))
    ensures s.views[a][v].Entry? ==> HasEntry(s, a, v)
    ensures Sound(PageCloned(s, a, b, v, cow), open)
  {
    if s.views[a][v].Entry? {
      var e := if cow then ReadOnly(s.views[a][v]) else s.views[a][v];
      var t := PageCloned(s, a, b, v, cow);
      PageClonedExact(s, a, b, v, cow);
      BothChanged(s, a, b, v, e);
      hide Put, Refs;
      forall c, w | HasEntry(t, c, w) && t.views[c][w].writable && t.views[c][w].page !in open
        ensures t.count[t.views[c][w].page] == 1
      {
        if t.views[c][w].page == e.page { TwoRefs(s.views, a, v, c, w, e.page); }
      }
    }
  }

  lemma BothChanged(s: System, a: nat, b: nat, v: nat, e: Pte)
    requires a < |s.views| && b < |s.views| && a != b && v < |s.views[a]| && v < |s.views[b]|
    ensures
      var t := Put(Put(s.views, a, v, e), b, v, e);
      && |t| == |s.views| && |t[a]| == |s.views[a]| && |t[b]| == |s.views[b]| && t[a][v] == e == t[b][v]
      && forall c, w :: HasEntry(System(t, s.count), c, w) && ((c != a && c != b) || w != v) ==>
        HasEntry(s, c, w) && t[c][w] == s.views[c][w]
  {}

  // The pages of an area, from lo up to hi.
  predicate Clonable(s: System, a: nat, b: nat, lo: nat, hi: nat) {
    && a < |s.views| && b < |s.views| && a != b && lo <= hi <= |s.views[a]| && hi <= |s.views[b]|
    && (forall v :: lo <= v < hi && s.views[a][v].Entry? ==> s.views[a][v].page < |s.count|)
  }

  function RangeCloned(s: System, a: nat, b: nat, lo: nat, hi: nat, cow: bool): (t: System)
    requires Clonable(s, a, b, lo, hi)
    ensures |t.views| == |s.views| && |t.count| == |s.count|
    ensures |t.views[a]| == |s.views[a]| && |t.views[b]| == |s.views[b]|
    ensures forall v :: hi <= v < |s.views[a]| ==> t.views[a][v] == s.views[a][v]
    ensures forall v :: hi <= v < |s.views[b]| ==> t.views[b][v] == s.views[b][v]
  {
    if lo == hi then s else PageCloned(RangeCloned(s, a, b, lo, hi - 1, cow), a, b, hi - 1, cow)
  }

  predicate EmptyOn(view: seq<Pte>, lo: nat, hi: nat) {
    hi <= |view| && forall v :: lo <= v < hi ==> view[v] == Absent
  }

  // Any area into an empty range: the counts stay exact.
  lemma {:induction false} RangeClonedExact(s: System, a: nat, b: nat, lo: nat, hi: nat, cow: bool)
    requires Exact(s) && Clonable(s, a, b, lo, hi)
    requires EmptyOn(s.views[b], lo, hi)
    ensures Exact(RangeCloned(s, a, b, lo, hi, cow))
  {
    hide Exact, PageCloned;
    if lo < hi {
      RangeClonedExact(s, a, b, lo, hi - 1, cow);
      PageClonedExact(RangeCloned(s, a, b, lo, hi - 1, cow), a, b, hi - 1, cow);
    }
  }

  predicate CopyableRange(view: seq<Pte>, open: set<nat>, lo: nat, hi: nat) {
    forall v :: lo <= v < hi && v < |view| ==> Copyable(view[v], open)
  }

  // Into an empty range, the pages that stay writable being a shared area's: nothing else is
  // left writable that two may see.
  lemma {:induction false} RangeClonedSound(s: System, open: set<nat>, a: nat, b: nat, lo: nat, hi: nat, cow: bool)
    requires Sound(s, open) && Clonable(s, a, b, lo, hi)
    requires EmptyOn(s.views[b], lo, hi)
    requires cow || CopyableRange(s.views[a], open, lo, hi)
    ensures Sound(RangeCloned(s, a, b, lo, hi, cow), open)
  {
    hide Sound, PageCloned;
    if lo < hi {
      RangeClonedSound(s, open, a, b, lo, hi - 1, cow);
      PageClonedSound(RangeCloned(s, a, b, lo, hi - 1, cow), open, a, b, hi - 1, cow);
    }
  }

  predicate InRange(s: System, a: nat, lo: nat, hi: nat, v: int)
    requires a < |s.views|
  {
    lo <= v < hi && HasEntry(s, a, v)
  }

  // What cloning an area does, page by page: the child has the parent's mapping where the
  // parent has one, both read-only if private and writable; all else is as it was.
  lemma {:induction false} CloneMaps(s: System, a: nat, b: nat, lo: nat, hi: nat, cow: bool)
    requires Clonable(s, a, b, lo, hi)
    ensures forall v :: 0 <= v < |s.views[a]| ==>
      RangeCloned(s, a, b, lo, hi, cow).views[a][v]
      == (if cow && InRange(s, a, lo, hi, v) then ReadOnly(s.views[a][v]) else s.views[a][v])
    ensures forall v :: 0 <= v < |s.views[b]| ==>
      RangeCloned(s, a, b, lo, hi, cow).views[b][v]
      == (if InRange(s, a, lo, hi, v) then RangeCloned(s, a, b, lo, hi, cow).views[a][v] else s.views[b][v])
    ensures forall c :: 0 <= c < |s.views| && c != a && c != b ==>
      RangeCloned(s, a, b, lo, hi, cow).views[c] == s.views[c]
  {
    if lo < hi { CloneMaps(s, a, b, lo, hi - 1, cow); }
  }

  // Each page is counted once more for every page of the range that maps it.
  lemma {:induction false} CloneCounts(s: System, a: nat, b: nat, lo: nat, hi: nat, cow: bool)
    requires Clonable(s, a, b, lo, hi)
    ensures forall p :: 0 <= p < |s.count| ==>
      RangeCloned(s, a, b, lo, hi, cow).count[p] == s.count[p] + Hits(s.views[a][lo..hi], p)
  {
    if lo < hi {
      CloneCounts(s, a, b, lo, hi - 1, cow);
      assert s.views[a][lo..hi][..hi - 1 - lo] == s.views[a][lo..hi - 1];
    }
  }

  // A memory area of a process, in pages, and the flags that matter to a fork.
  datatype Area = Area(start: nat, end: nat, shared: bool, maywrite: bool, dontcopy: bool)

  predicate Cow(m: Area) {
    !m.shared && m.maywrite
  }

  // The areas lie within a space of n pages.
  predicate Within(areas: seq<Area>, n: nat) {
    forall i :: 0 <= i < |areas| ==> areas[i].start <= areas[i].end <= n
  }

  // dup_mmap copies page v with area m.
  predicate Copies(m: Area, v: int) {
    !m.dontcopy && m.start <= v < m.end
  }

  ghost predicate CopiedPage(areas: seq<Area>, v: int) {
    exists i :: 0 <= i < |areas| && Copies(areas[i], v)
  }

  ghost predicate MadeReadOnly(areas: seq<Area>, v: int) {
    exists i :: 0 <= i < |areas| && Copies(areas[i], v) && Cow(areas[i])
  }

  lemma OneAreaMore(areas: seq<Area>, v: int)
    requires areas != []
    ensures
      var first, last := areas[..|areas| - 1], areas[|areas| - 1];
      && (CopiedPage(areas, v) <==> CopiedPage(first, v) || Copies(last, v))
      && (MadeReadOnly(areas, v) <==> MadeReadOnly(first, v) || (Copies(last, v) && Cow(last)))
  {
    var first, last := areas[..|areas| - 1], areas[|areas| - 1];
    assert forall i :: 0 <= i < |first| ==> first[i] == areas[i];
    assert areas[|areas| - 1] == last;
    if CopiedPage(first, v) {
      var i :| 0 <= i < |first| && Copies(first[i], v);
      assert Copies(areas[i], v);
    }
    if MadeReadOnly(first, v) {
      var i :| 0 <= i < |first| && Copies(first[i], v) && Cow(first[i]);
      assert Copies(areas[i], v) && Cow(areas[i]);
    }
  }

  ghost predicate Apart(areas: seq<Area>) {
    forall i, j, v :: 0 <= i < j < |areas| && Copies(areas[i], v) ==> !Copies(areas[j], v)
  }

  // Spaces a and b are two of equal size, and what a maps has a count.
  ghost predicate Forkable(s: System, a: nat, b: nat) {
    && a < |s.views| && b < |s.views| && a != b && |s.views[a]| == |s.views[b]|
    && (forall v :: 0 <= v < |s.views[a]| && s.views[a][v].Entry? ==> s.views[a][v].page < |s.count|)
  }

  // dup_mmap: all areas but those marked dontcopy are cloned, in order.
  ghost function Forked(s: System, a: nat, b: nat, areas: seq<Area>): (t: System)
    requires Forkable(s, a, b) && Within(areas, |s.views[a]|)
    ensures Forkable(t, a, b) && |t.views| == |s.views| && |t.count| == |s.count| && |t.views[a]| == |s.views[a]|
    ensures forall c :: 0 <= c < |s.views| && c != a && c != b ==> t.views[c] == s.views[c]
  {
    if areas == [] then s
    else
      var t, m := Forked(s, a, b, areas[..|areas| - 1]), areas[|areas| - 1];
      if m.dontcopy then t
      else
        CloneMaps(t, a, b, m.start, m.end, Cow(m));
        RangeCloned(t, a, b, m.start, m.end, Cow(m))
  }

  // After a fork the child maps on every page of a copied area what the parent maps, and
  // elsewhere what it did before; the parent has lost the right to write just where it is
  // to be copied on write.
  lemma {:induction false} ForkMaps(s: System, a: nat, b: nat, areas: seq<Area>, v: nat)
    requires Forkable(s, a, b) && Within(areas, |s.views[a]|) && v < |s.views[a]|
    ensures
      var t, e := Forked(s, a, b, areas), s.views[a][v];
      && t.views[a][v] == (if e.Entry? && MadeReadOnly(areas, v) then ReadOnly(e) else e)
      && t.views[b][v] == (if e.Entry? && CopiedPage(areas, v) then t.views[a][v] else s.views[b][v])
  {
    if areas != [] {
      var first, m := areas[..|areas| - 1], areas[|areas| - 1];
      OneAreaMore(areas, v);
      ForkMaps(s, a, b, first, v);
      if !m.dontcopy { CloneMaps(Forked(s, a, b, first), a, b, m.start, m.end, Cow(m)); }
    }
  }

  // The same in terms of the flags. A page copied with a private area that may be written is
  // writable in neither space afterwards; a page copied with other areas only is mapped by both as
  // the parent mapped it; a page not copied is as it was.
  lemma ForkFlags(s: System, a: nat, b: nat, areas: seq<Area>, v: nat, i: nat)
    requires Forkable(s, a, b) && Within(areas, |s.views[a]|) && v < |s.views[a]| && s.views[a][v].Entry?
    requires i < |areas| && !areas[i].dontcopy && areas[i].start <= v < areas[i].end
    ensures
      var t, e := Forked(s, a, b, areas), s.views[a][v];
      && (!areas[i].shared && areas[i].maywrite ==>
            t.views[a][v] == t.views[b][v] == Entry(e.page, false))
      && ((forall j :: 0 <= j < |areas| && !areas[j].dontcopy && areas[j].start <= v < areas[j].end ==>
             areas[j].shared || !areas[j].maywrite) ==>
            t.views[a][v] == t.views[b][v] == e)
  {
    ForkMaps(s, a, b, areas, v);
    assert Copies(areas[i], v);
  }

  lemma ForkElsewhere(s: System, a: nat, b: nat, areas: seq<Area>, v: nat)
    requires Forkable(s, a, b) && Within(areas, |s.views[a]|) && v < |s.views[a]|
    requires forall i :: 0 <= i < |areas| && areas[i].start <= v < areas[i].end ==> areas[i].dontcopy
    ensures
      var t := Forked(s, a, b, areas);
      t.views[a][v] == s.views[a][v] && t.views[b][v] == s.views[b][v]
  {
    ForkMaps(s, a, b, areas, v);
  }

  // Into an empty space, areas apart: the counts stay exact, shared areas included.
  lemma {:induction false} ForkExact(s: System, a: nat, b: nat, areas: seq<Area>)
    requires Exact(s) && Forkable(s, a, b) && Within(areas, |s.views[a]|) && Apart(areas)
    requires EmptyOn(s.views[b], 0, |s.views[b]|)
    ensures Exact(Forked(s, a, b, areas))
  {
    hide Exact, RangeCloned;
    if areas != [] {
      var first, m := areas[..|areas| - 1], areas[|areas| - 1];
      ForkExact(s, a, b, first);
      if !m.dontcopy {
        StillEmpty(s, a, b, areas);
        RangeClonedExact(Forked(s, a, b, first), a, b, m.start, m.end, Cow(m));
      }
    }
  }

  // When the last area's turn comes, the child maps none of its pages.
  lemma StillEmpty(s: System, a: nat, b: nat, areas: seq<Area>)
    requires Forkable(s, a, b) && Within(areas, |s.views[a]|) && Apart(areas) && areas != []
    requires EmptyOn(s.views[b], 0, |s.views[b]|)
    requires !areas[|areas| - 1].dontcopy
    ensures
      EmptyOn(Forked(s, a, b, areas[..|areas| - 1]).views[b], areas[|areas| - 1].start, areas[|areas| - 1].end)
  {
    var first, m := areas[..|areas| - 1], areas[|areas| - 1];
    forall v | m.start <= v < m.end
      ensures Forked(s, a, b, first).views[b][v] == Absent
    {
      ForkMaps(s, a, b, first, v);
      assert Copies(m, v);
      assert !CopiedPage(first, v);
    }
  }

  // Copied areas that are not copied on write have no writable pages but shared ones.
  ghost predicate CopyableAreas(s: System, open: set<nat>, a: nat, areas: seq<Area>)
    requires a < |s.views|
  {
    forall i, v :: 0 <= i < |areas| && Copies(areas[i], v) && !Cow(areas[i]) ==> CopyableAt(s, open, a, v)
  }

  predicate CopyableAt(s: System, open: set<nat>, a: nat, v: int) {
    HasEntry(s, a, v) ==> Copyable(s.views[a][v], open)
  }

  lemma {:induction false} ForkSound(s: System, open: set<nat>, a: nat, b: nat, areas: seq<Area>)
    requires Sound(s, open) && Forkable(s, a, b) && Within(areas, |s.views[a]|) && Apart(areas)
    requires CopyableAreas(s, open, a, areas) && EmptyOn(s.views[b], 0, |s.views[b]|)
    ensures Sound(Forked(s, a, b, areas), open)
  {
    hide Sound, RangeCloned;
    if areas != [] {
      var first, m := areas[..|areas| - 1], areas[|areas| - 1];
      assert forall i :: 0 <= i < |first| ==> first[i] == areas[i];
      ForkSound(s, open, a, b, first);
      if !m.dontcopy {
        StillEmpty(s, a, b, areas);
        var t := Forked(s, a, b, first);
        if !Cow(m) {
          forall v | m.start <= v < m.end
            ensures Copyable(t.views[a][v], open)
          {
            ForkMaps(s, a, b, first, v);
            assert Copies(areas[|areas| - 1], v) && CopyableAt(s, open, a, v);
          }
        }
        RangeClonedSound(t, open, a, b, m.start, m.end, Cow(m));
      }
    }
  }

  // A space of n pages that maps nothing.
  function Nothing(n: nat): (e: seq<Pte>)
    ensures |e| == n && forall v :: 0 <= v < n ==> e[v] == Absent
  {
    seq(n, _ => Absent)
  }

  // clone_mm starts from a new, empty space.
  function NewSpace(s: System, n: nat): System {
    System(s.views + [Nothing(n)], s.count)
  }

  lemma NewSpaceSound(s: System, n: nat)
    ensures Exact(s) ==> Exact(NewSpace(s, n))
    ensures forall open :: Sound(s, open) ==> Sound(NewSpace(s, n), open)
  {
    var t := NewSpace(s, n);
    forall p: nat
      ensures Refs(t.views, p) == Refs(s.views, p)
    {
      NoHits(Nothing(n), p);
      assert t.views[..|t.views| - 1] == s.views;
    }
    assert forall a, v :: HasEntry(t, a, v) ==> HasEntry(s, a, v) && t.views[a][v] == s.views[a][v];
  }

  // The whole of clone_mm on space a.
  ghost predicate CanFork(s: System, a: nat, areas: seq<Area>) {
    && a < |s.views| && Forkable(NewSpace(s, |s.views[a]|), a, |s.views|)
    && Within(areas, |s.views[a]|) && Apart(areas)
  }

  ghost function ForkedAnew(s: System, a: nat, areas: seq<Area>): System
    requires CanFork(s, a, areas)
  {
    Forked(NewSpace(s, |s.views[a]|), a, |s.views|, areas)
  }

  lemma ForkedAnewExact(s: System, a: nat, areas: seq<Area>)
    requires Exact(s) && CanFork(s, a, areas)
    ensures Exact(ForkedAnew(s, a, areas))
  {
    hide Exact;
    NewSpaceSound(s, |s.views[a]|);
    ForkExact(NewSpace(s, |s.views[a]|), a, |s.views|, areas);
  }

  lemma ForkedAnewSound(s: System, open: set<nat>, a: nat, areas: seq<Area>)
    requires Sound(s, open) && CanFork(s, a, areas) && CopyableAreas(s, open, a, areas)
    ensures Sound(ForkedAnew(s, a, areas), open)
  {
    hide Sound;
    var t := NewSpace(s, |s.views[a]|);
    NewSpaceSound(s, |s.views[a]|);
    assert forall v :: CopyableAt(s, open, a, v) ==> CopyableAt(t, open, a, v);
    ForkSound(t, open, a, |s.views|, areas);
  }

  // What is read at page v of space a, given what the pages hold.
  function Seen<T>(s: System, memory: seq<T>, a: nat, v: nat): T
    requires HasEntry(s, a, v) && s.views[a][v].page < |memory|
  {
    memory[s.views[a][v].page]
  }

  // The memory after the fault: the copy holds what the shared page holds.
  function Copied<T>(s: System, memory: seq<T>, a: nat, v: nat, copy: nat): seq<T>
    requires HasEntry(s, a, v) && s.views[a][v].page < |s.count| == |memory| && copy < |memory|
  {
    if s.count[s.views[a][v].page] == 1 then memory else memory[copy := memory[s.views[a][v].page]]
  }

  // A write fault changes nothing that any space reads anywhere, and then the store that
  // faulted changes what is read at that one address only.
  lemma FaultThenStore<T>(s: System, memory: seq<T>, a: nat, v: nat, copy: nat, x: T, b: nat, w: nat)
    requires Exact(s) && |memory| == |s.count| && HasEntry(s, a, v) && HasEntry(s, b, w) && copy < |memory|
    requires s.count[s.views[a][v].page] != 1 ==> s.count[copy] == 0
    ensures s.count[s.views[a][v].page] >= 1
    ensures
      var t := Faulted(s, a, v, copy);
      && HasEntry(t, b, w) && t.views[b][w].page < |memory| && HasEntry(t, a, v) && t.views[a][v].writable
      && Seen(t, Copied(s, memory, a, v, copy), b, w) == Seen(s, memory, b, w)
      && Seen(t, Copied(s, memory, a, v, copy)[t.views[a][v].page := x], b, w)
        == (if a == b && v == w then x else Seen(s, memory, b, w))
  {
    FaultedExact(s, a, v, copy);
    var t := Faulted(s, a, v, copy);
    assert HasEntry(t, a, v) && HasEntry(t, b, w);
    if s.count[s.views[a][v].page] != 1 { NotMapped(s, copy); }
    if a != b || v != w { CountedOnce(t, a, v, b, w); }
  }

  datatype Op =
    | Resolve(a: nat, v: nat, page: nat, writable: bool, shared: bool)
    | Release(a: nat, v: nat)
    | Fault(a: nat, v: nat, copy: nat)
    | Clone(a: nat, b: nat, lo: nat, hi: nat, cow: bool)
    | Fork(a: nat, areas: seq<Area>)

  // New pages are free ones; faults and releases hit a mapping; an area is cloned into an
  // empty range; a process that forks has areas that do not overlap.
  ghost predicate Allowed(s: System, op: Op) {
    match op
    case Resolve(a, v, page, _, _) =>
      a < |s.views| && v < |s.views[a]| && s.views[a][v] == Absent && page < |s.count| && s.count[page] == 0
    case Release(a, v) =>
      HasEntry(s, a, v) && Counted(s, a, v)
    case Fault(a, v, copy) =>
      && HasEntry(s, a, v) && Counted(s, a, v) && copy < |s.count|
      && (s.count[s.views[a][v].page] != 1 ==> s.count[copy] == 0)
    case Clone(a, b, lo, hi, _) =>
      Clonable(s, a, b, lo, hi) && EmptyOn(s.views[b], lo, hi)
    case Fork(a, areas) =>
      CanFork(s, a, areas)
  }

  predicate Counted(s: System, a: nat, v: nat)
    requires HasEntry(s, a, v)
  {
    s.views[a][v].page < |s.count| && s.count[s.views[a][v].page] >= 1
  }

  ghost function Done(s: System, op: Op): System
    requires Allowed(s, op)
  {
    match op
    case Resolve(a, v, page, writable, _) => Resolved(s, a, v, page, writable)
    case Release(a, v) => Released(s, a, v)
    case Fault(a, v, copy) => Faulted(s, a, v, copy)
    case Clone(a, b, lo, hi, cow) => RangeCloned(s, a, b, lo, hi, cow)
    case Fork(a, areas) => ForkedAnew(s, a, areas)
  }

  ghost predicate IsRun(s: System, ops: seq<Op>, t: System)
    decreases |ops|
  {
    if ops == [] then t == s else Allowed(s, ops[0]) && IsRun(Done(s, ops[0]), ops[1..], t)
  }

  // Whatever order pages come, go, fault and are cloned in, shared or not: every count stays
  // exact.
  lemma {:induction false} AnyRunExact(s: System, ops: seq<Op>, t: System)
    requires Exact(s) && IsRun(s, ops, t)
    ensures Exact(t)
    decreases |ops|
  {
    hide Exact, Resolved, Released, Faulted, RangeCloned, ForkedAnew;
    if ops != [] {
      match ops[0] {
        case Resolve(a, v, page, writable, _) => ResolvedExact(s, a, v, page, writable);
        case Release(a, v) => ReleasedExact(s, a, v);
        case Fault(a, v, copy) => FaultedExact(s, a, v, copy);
        case Clone(a, b, lo, hi, cow) => RangeClonedExact(s, a, b, lo, hi, cow);
        case Fork(a, areas) => ForkedAnewExact(s, a, areas);
      }
      AnyRunExact(Done(s, ops[0]), ops[1..], t);
    }
  }

  // The pages of shared areas after an operation: a new page is one or not.
  function OpenAfter(open: set<nat>, op: Op): set<nat> {
    if op.Resolve? then Opened(open, op.page, op.shared) else open
  }

  function OpenAtEnd(open: set<nat>, ops: seq<Op>): set<nat>
    decreases |ops|
  {
    if ops == [] then open else OpenAtEnd(OpenAfter(open, ops[0]), ops[1..])
  }

  // What is not copied on write has no writable pages but those of shared areas.
  ghost predicate Respects(s: System, open: set<nat>, op: Op)
    requires Allowed(s, op)
  {
    match op
    case Clone(a, _, lo, hi, cow) => cow || CopyableRange(s.views[a], open, lo, hi)
    case Fork(a, areas) => CopyableAreas(s, open, a, areas)
    case _ => true
  }

  ghost predicate RunRespects(s: System, open: set<nat>, ops: seq<Op>)
    decreases |ops|
  {
    ops != [] ==>
      && Allowed(s, ops[0]) && Respects(s, open, ops[0])
      && RunRespects(Done(s, ops[0]), OpenAfter(open, ops[0]), ops[1..])
  }

  // And a writable page that is no shared area's has one user.
  lemma {:induction false} AnyRunSound(s: System, open: set<nat>, ops: seq<Op>, t: System)
    requires Sound(s, open) && IsRun(s, ops, t) && RunRespects(s, open, ops)
    ensures Sound(t, OpenAtEnd(open, ops))
    decreases |ops|
  {
    hide Sound, Resolved, Released, Faulted, RangeCloned, ForkedAnew, Opened;
    if ops != [] {
      match ops[0] {
        case Resolve(a, v, page, writable, shared) => ResolvedSound(s, open, a, v, page, writable, shared);
        case Release(a, v) => ReleasedSound(s, open, a, v);
        case Fault(a, v, copy) => FaultedSound(s, open, a, v, copy);
        case Clone(a, b, lo, hi, cow) => RangeClonedSound(s, open, a, b, lo, hi, cow);
        case Fork(a, areas) => ForkedAnewSound(s, open, a, areas);
      }
      AnyRunSound(Done(s, ops[0]), OpenAfter(open, ops[0]), ops[1..], t);
    }
  }

  lemma {:induction false} EmptySound(views: seq<seq<Pte>>, count: seq<nat>)
    requires forall a, v :: 0 <= a < |views| && 0 <= v < |views[a]| ==> views[a][v] == Absent
    requires forall p :: 0 <= p < |count| ==> count[p] == 0
    ensures Sound(System(views, count), {})
  {
    forall p
      ensures Refs(views, p) == 0
    {
      NoRefs(views, p);
    }
  }

  lemma {:induction false} NoRefs(views: seq<seq<Pte>>, p: nat)
    requires forall a, v :: 0 <= a < |views| && 0 <= v < |views[a]| ==> views[a][v] == Absent
    ensures Refs(views, p) == 0
  {
    if views != [] {
      NoRefs(views[..|views| - 1], p);
      NoHits(views[|views| - 1], p);
    }
  }

  lemma {:induction false} NoHits(s: seq<Pte>, p: nat)
    requires forall v :: 0 <= v < |s| ==> s[v] == Absent
    ensures Hits(s, p) == 0
  {
    if s != [] { NoHits(s[..|s| - 1], p); }
  }
}
