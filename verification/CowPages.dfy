// src/kernel/fork.c, src/mm/memory.c, src/arch/x86/mm/fault.c: page directories and page
// tables in memory, changed in place. Addresses are counted in pages.
module CowPages {
  import opened CowCounts

  const ENTRIES: nat := 1024
  const USER_DIRS: nat := 768             // 3G in steps of 4M
  const USER_PAGES: nat := 768 * 1024     // 3G in pages

  // What a page holds.
  datatype Contents = Contents(bytes: seq<bv8>)

  // A page directory. Its first USER_DIRS entries are the process's own; the rest maps the
  // kernel, through page tables that all processes share.
  class AddressSpace {
    const dir: array<array?<Pte>>

    // The tables of the process itself.
    ghost function Tables(): set<array<Pte>>
      reads dir
    {
      set d | 0 <= d < USER_DIRS && d < dir.Length && dir[d] != null :: dir[d]
    }

    ghost predicate Valid()
      reads dir
    {
      && dir.Length == ENTRIES
      && (forall d :: 0 <= d < ENTRIES && dir[d] != null ==> dir[d].Length == ENTRIES)
      && (forall c, d :: 0 <= c < USER_DIRS && c < d < ENTRIES && dir[c] != null ==> dir[c] != dir[d])
    }

    predicate Present(v: nat)
      reads dir
    {
      v / ENTRIES < dir.Length && dir[v / ENTRIES] != null
    }

    // The entry for page v; where there is no table nothing is mapped.
    function At(v: nat): Pte
      requires Valid() && v < USER_PAGES
      reads dir, Tables()
    {
      if dir[v / ENTRIES] == null then Absent else dir[v / ENTRIES][v % ENTRIES]
    }

    ghost function Flat(): (s: seq<Pte>)
      requires Valid()
      reads dir, Tables()
      ensures |s| == USER_PAGES && forall v :: 0 <= v < USER_PAGES ==> s[v] == At(v)
    {
      seq(USER_PAGES, v requires 0 <= v < USER_PAGES && Valid() reads dir, Tables() => At(v))
    }

    // An empty directory
    constructor ()
      ensures Valid() && fresh(dir) && Tables() == {}
      ensures forall d :: 0 <= d < ENTRIES ==> dir[d] == null
    {
      dir := new array?<Pte>[ENTRIES](_ => null);
    }

    // map kernel space
    method ShareKernel(from: AddressSpace)
      requires Valid() && Tables() == {} && from.Valid() && from.dir != dir
      modifies dir
      ensures Valid() && Tables() == {} && SameKernel(from, this)
      ensures forall d :: 0 <= d < USER_DIRS ==> dir[d] == null
    {
      assert forall d :: 0 <= d < USER_DIRS && dir[d] != null ==> dir[d] in Tables();
      forall d | USER_DIRS <= d < ENTRIES {
        dir[d] := from.dir[d];
      }
    }

    // table[i] = e
    method Write(table: array<Pte>, i: nat, e: Pte, ghost v: nat)
      requires Valid() && v < USER_PAGES && dir[v / ENTRIES] == table && i == v % ENTRIES
      modifies table
      ensures Valid() && Flat() == old(Flat())[v := e] && table[i] == e
    {
      table[i] := e;
      assert Tables() == old(Tables());
      forall w | 0 <= w < USER_PAGES
        ensures At(w) == if w == v then e else old(At(w))
      {
        if w != v && w / ENTRIES == v / ENTRIES { assert w % ENTRIES != v % ENTRIES; }
      }
    }

    // A table for directory entry d, if it has none: a page of zeroes. The kernel's
    // entries are never empty where this happens.
    method NeedTable(d: nat) returns (table: array<Pte>)
      requires Valid() && d < ENTRIES && (d >= USER_DIRS ==> dir[d] != null)
      modifies dir
      ensures Valid() && Flat() == old(Flat()) && dir[d] == table
      ensures forall c :: 0 <= c < ENTRIES && c != d ==> dir[c] == old(dir[c])
      ensures if old(dir[d]) == null then fresh(table) else table == old(dir[d])
    {
      if dir[d] == null {
        dir[d] := new Pte[ENTRIES](_ => Absent);
      }
      table := dir[d];
      assert forall w :: 0 <= w < USER_PAGES ==> At(w) == old(At(w));
    }
  }

  // Both directories map the kernel through the same tables, the first one being there.
  ghost predicate SameKernel(me: AddressSpace, he: AddressSpace)
    reads me.dir, he.dir
  {
    && me.dir.Length == he.dir.Length == ENTRIES
    && (forall d :: USER_DIRS <= d < ENTRIES ==> he.dir[d] == me.dir[d])
  }

  // The spaces me and he are number a and b of all there are. They share the kernel's tables
  // and no others.
  ghost predicate Pair(me: AddressSpace, he: AddressSpace, views: seq<seq<Pte>>, a: nat, b: nat)
    reads me.dir, he.dir, me.Tables(), he.Tables()
  {
    && me.Valid() && he.Valid() && me.dir != he.dir && me.Tables() !! he.Tables()
    && SameKernel(me, he) && me.dir[USER_DIRS] != null
    && a < |views| && b < |views| && a != b && views[a] == me.Flat() && views[b] == he.Flat()
  }

  // clone_vma on the pages from start up to end, which may be the kernel's first. The parent
  // has its page tables. after is the system as it is then.
  method CloneVma(me: AddressSpace, he: AddressSpace, count: array<nat>, start: nat, end: nat,
                  shared: bool, maywrite: bool, ghost views: seq<seq<Pte>>, ghost a: nat, ghost b: nat)
    returns (ghost after: System)
    requires Pair(me, he, views, a, b) && start <= end <= USER_PAGES
    requires Clonable(System(views, count[..]), a, b, start, end)
    requires forall v :: start <= v < end ==> me.Present(v)
    modifies count, me.Tables(), he.dir, he.Tables()
    ensures after == RangeCloned(old(System(views, count[..])), a, b, start, end, !shared && maywrite)
    ensures Pair(me, he, after.views, a, b) && after.count == count[..]
    ensures me.Tables() == old(me.Tables()) && (forall t :: t in he.Tables() ==> t in old(he.Tables()) || fresh(t))
  {
    var cow := !shared && maywrite;
    var mytbl, histbl := Next4M(me, he, start, views, a, b);
    after := ClonePages(me, he, count, mytbl, histbl, start, end, cow, System(views, count[..]), a, b);
  }

  // Its loop.
  method ClonePages(me: AddressSpace, he: AddressSpace, count: array<nat>, tbl: array?<Pte>, itsTbl: array<Pte>,
                    start: nat, end: nat, cow: bool, ghost before: System, ghost a: nat, ghost b: nat)
    returns (ghost after: System)
    requires At(me, he, before.views, a, b, start, tbl, itsTbl) && before.count == count[..]
    requires start <= end <= USER_PAGES && Clonable(before, a, b, start, end)
    requires forall v :: start <= v < end ==> me.Present(v)
    modifies count, me.Tables(), he.dir, he.Tables()
    ensures after == RangeCloned(before, a, b, start, end, cow)
    ensures Pair(me, he, after.views, a, b) && after.count == count[..]
    ensures me.Tables() == old(me.Tables()) && (forall t :: t in he.Tables() ==> t in old(he.Tables()) || fresh(t))
  {
    hide RangeCloned, PageCloned, Clonable, Pair, At, AddressSpace.Valid, AddressSpace.Flat, AddressSpace.Tables,
      AddressSpace.Present, SameKernel;
    ghost var mine, his := me.Tables(), he.Tables();
    after := before;
    NoPages(before, a, b, start, end, cow);
    var v, mytbl, histbl := start, tbl, itsTbl;
    while v < end
      invariant start <= v <= end && Clonable(before, a, b, start, v)
      invariant after == RangeCloned(before, a, b, start, v, cow)
      invariant At(me, he, after.views, a, b, v, mytbl, histbl) && after.count == count[..]
      invariant me.Tables() == mine && forall t :: t in he.Tables() ==> t in his || fresh(t)
      invariant forall w :: start <= w < end ==> me.Present(w)
      decreases end - v
    {
      OnePageMore(before, a, b, start, v, end, cow);
      mytbl, histbl, after := CloneEntry(me, he, count, mytbl, histbl, v, cow, after, a, b);
      v := v + 1;
    }
    AtPair(me, he, after.views, a, b, v, mytbl, histbl);
  }

  lemma AtPair(me: AddressSpace, he: AddressSpace, views: seq<seq<Pte>>, a: nat, b: nat, v: nat,
               mytbl: array?<Pte>, histbl: array<Pte>)
    requires At(me, he, views, a, b, v, mytbl, histbl)
    ensures Pair(me, he, views, a, b)
  {}

  lemma NoPages(s: System, a: nat, b: nat, lo: nat, hi: nat, cow: bool)
    requires Clonable(s, a, b, lo, hi)
    ensures Clonable(s, a, b, lo, lo) && RangeCloned(s, a, b, lo, lo, cow) == s
  {}

  lemma OnePageMore(s: System, a: nat, b: nat, lo: nat, v: nat, hi: nat, cow: bool)
    requires Clonable(s, a, b, lo, hi) && lo <= v < hi && Clonable(s, a, b, lo, v)
    ensures Clonable(s, a, b, lo, v + 1)
    ensures
      var t := RangeCloned(s, a, b, lo, v, cow);
      && t.views[a][v] == s.views[a][v] && (t.views[a][v].Entry? ==> t.views[a][v].page < |t.count|)
      && RangeCloned(s, a, b, lo, v + 1, cow) == PageCloned(t, a, b, v, cow)
  {}

  // What stands at the label next_4M: the tables for the page v in both spaces. Behind the
  // last page the parent may have none; it is not looked at then.
  method Next4M(me: AddressSpace, he: AddressSpace, v: nat, ghost views: seq<seq<Pte>>, ghost a: nat, ghost b: nat)
    returns (mytbl: array?<Pte>, histbl: array<Pte>)
    requires Pair(me, he, views, a, b) && v <= USER_PAGES
    modifies he.dir
    ensures At(me, he, views, a, b, v, mytbl, histbl)
    ensures me.Tables() == old(me.Tables()) && (forall t :: t in he.Tables() ==> t in old(he.Tables()) || fresh(t))
  {
    ghost var mine, was := me.Flat(), he.Tables();
    histbl := he.NeedTable(v / ENTRIES);
    mytbl := me.dir[v / ENTRIES];
    assert me.Tables() == old(me.Tables());
    assert me.Flat() == mine;
    assert he.Tables() <= was + {histbl};
  }

  // mytbl and histbl are the tables that hold the entries for page v.
  ghost predicate At(me: AddressSpace, he: AddressSpace, views: seq<seq<Pte>>, a: nat, b: nat, v: nat,
                     mytbl: array?<Pte>, histbl: array<Pte>)
    reads me.dir, he.dir, me.Tables(), he.Tables()
  {
    && Pair(me, he, views, a, b) && v <= USER_PAGES
    && mytbl == me.dir[v / ENTRIES] && histbl == he.dir[v / ENTRIES]
    && (v < USER_PAGES ==> histbl in he.Tables() && (mytbl != null ==> mytbl in me.Tables()))
  }

  // The body of its loop.
  method CloneEntry(me: AddressSpace, he: AddressSpace, count: array<nat>, mytbl: array?<Pte>, histbl: array<Pte>,
                    v: nat, cow: bool, ghost now: System, ghost a: nat, ghost b: nat)
    returns (mytbl': array?<Pte>, histbl': array<Pte>, ghost after: System)
    requires At(me, he, now.views, a, b, v, mytbl, histbl) && now.count == count[..]
    requires v < USER_PAGES && me.Present(v)
    requires now.views[a][v].Entry? ==> now.views[a][v].page < |now.count|
    modifies count, me.Tables(), he.dir, he.Tables()
    ensures after == PageCloned(now, a, b, v, cow)
    ensures At(me, he, after.views, a, b, v + 1, mytbl', histbl') && after.count == count[..]
    ensures me.Tables() == old(me.Tables()) && (forall t :: t in he.Tables() ==> t in old(he.Tables()) || fresh(t))
    ensures forall w: nat :: old(me.Present(w)) ==> me.Present(w)
  {
    after := CopyEntry(me, he, count, mytbl, histbl, v, cow, now, a, b);
    mytbl', histbl' := mytbl, histbl;
    if (v + 1) % ENTRIES == 0 {
      mytbl', histbl' := Next4M(me, he, v + 1, after.views, a, b);
    } else {
      assert (v + 1) / ENTRIES == v / ENTRIES;
    }
  }

  // Its first half: the entry copied, the page counted.
  method CopyEntry(me: AddressSpace, he: AddressSpace, count: array<nat>, mytbl: array<Pte>, histbl: array<Pte>,
                   v: nat, cow: bool, ghost now: System, ghost a: nat, ghost b: nat)
    returns (ghost after: System)
    requires At(me, he, now.views, a, b, v, mytbl, histbl) && now.count == count[..] && v < USER_PAGES
    requires now.views[a][v].Entry? ==> now.views[a][v].page < |now.count|
    modifies count, mytbl, histbl
    ensures after == PageCloned(now, a, b, v, cow)
    ensures At(me, he, after.views, a, b, v, mytbl, histbl) && after.count == count[..]
  {
    hide PageCloned, AddressSpace.Flat, SameKernel;
    var i := v % ENTRIES;
    PageClonedViews(now, a, b, v, cow);
    after := PageCloned(now, a, b, v, cow);
    assert mytbl[i] == me.At(v) == now.views[a][v];
    if mytbl[i] != Absent {
      if cow {
        me.Write(mytbl, i, ReadOnly(mytbl[i]), v);
      }
      he.Write(histbl, i, mytbl[i], v);
      var page := mytbl[i].page;
      count[page] := count[page] + 1;
    }
  }

  lemma PageClonedViews(s: System, a: nat, b: nat, v: nat, cow: bool)
    requires a < |s.views| && b < |s.views| && a != b && v < |s.views[a]| && v < |s.views[b]|
    requires s.views[a][v].Entry? ==> s.views[a][v].page < |s.count|
    ensures
      var t := PageCloned(s, a, b, v, cow);
      if s.views[a][v] == Absent then t == s
      else
        var e := if cow then ReadOnly(s.views[a][v]) else s.views[a][v];
        && |t.views| == |s.views|
        && t.views[a] == s.views[a][v := e] && t.views[b] == s.views[b][v := e]
        && t.count == s.count[e.page := s.count[e.page] + 1]
        && (!cow ==> t.views[a] == s.views[a])
  {}

  // The space is number a of all there are.
  ghost predicate Is(space: AddressSpace, views: seq<seq<Pte>>, a: nat)
    reads space.dir, space.Tables()
  {
    space.Valid() && a < |views| && views[a] == space.Flat()
  }

  // The parent has page tables for all it will copy.
  predicate TablesFor(me: AddressSpace, areas: seq<Area>)
    reads me.dir
  {
    forall i :: 0 <= i < |areas| && !areas[i].dontcopy ==> TablesForArea(me, areas[i])
  }

  predicate TablesForArea(me: AddressSpace, m: Area)
    reads me.dir
  {
    forall v :: m.start <= v < m.end ==> me.Present(v)
  }

  // clone_mm with dup_mmap: a new directory with the kernel's entries, then area by area.
  method CloneMm(me: AddressSpace, count: array<nat>, areas: seq<Area>, ghost views: seq<seq<Pte>>, ghost a: nat)
    returns (he: AddressSpace, ghost after: System)
    requires Is(me, views, a) && me.dir[USER_DIRS] != null && TablesFor(me, areas)
    requires Forkable(NewSpace(System(views, count[..]), USER_PAGES), a, |views|) && Within(areas, USER_PAGES)
    modifies count, me.Tables()
    ensures fresh(he) && fresh(he.dir) && forall t :: t in he.Tables() ==> fresh(t)
    ensures Pair(me, he, after.views, a, |views|) && after.count == count[..]
    ensures after == Forked(NewSpace(old(System(views, count[..])), USER_PAGES), a, |views|, areas)
    ensures forall i, v :: 0 <= i < |areas| && PrivatePage(areas[i], v) && views[a][v].Entry? ==>
      he.Flat()[v] == me.Flat()[v] == Entry(views[a][v].page, false)
  {
    hide RangeCloned;
    he := new AddressSpace();
    he.ShareKernel(me);
    ghost var first := NewSpace(System(views, count[..]), USER_PAGES);
    after := first;
    EmptyFlat(he);
    for i := 0 to |areas|
      invariant Pair(me, he, after.views, a, |views|) && after.count == count[..]
      invariant after == Forked(first, a, |views|, areas[..i])
      invariant me.dir[..] == old(me.dir[..]) && me.Tables() == old(me.Tables())
      invariant fresh(he.dir) && forall t :: t in he.Tables() ==> fresh(t)
    {
      assert areas[..i + 1][..i] == areas[..i];
      var m := areas[i];
      if !m.dontcopy {
        after := CloneVma(me, he, count, m.start, m.end, m.shared, m.maywrite, after.views, a, |views|);
      }
    }
    assert areas[..|areas|] == areas;
    PrivateReadOnly(first, a, |views|, areas);
  }

  // A page of a private area that may be written, and that a fork copies
  predicate PrivatePage(m: Area, v: int) {
    !m.dontcopy && m.start <= v < m.end && !m.shared && m.maywrite
  }

  lemma PrivateReadOnly(s: System, a: nat, b: nat, areas: seq<Area>)
    requires Forkable(s, a, b) && Within(areas, |s.views[a]|)
    ensures forall i, v :: 0 <= i < |areas| && PrivatePage(areas[i], v) && s.views[a][v].Entry? ==>
      Forked(s, a, b, areas).views[a][v] == Forked(s, a, b, areas).views[b][v] == Entry(s.views[a][v].page, false)
  {
    forall i, v | 0 <= i < |areas| && PrivatePage(areas[i], v) && s.views[a][v].Entry?
      ensures Forked(s, a, b, areas).views[a][v] == Forked(s, a, b, areas).views[b][v]
              == Entry(s.views[a][v].page, false)
    {
      ForkFlags(s, a, b, areas, v, i);
    }
  }

  lemma EmptyFlat(space: AddressSpace)
    requires space.Valid() && forall d :: 0 <= d < USER_DIRS ==> space.dir[d] == null
    ensures space.Flat() == Nothing(USER_PAGES)
  {}

  // __resolve_address: a new page, which __alloc_page handed out and counts once, is mapped.
  method ResolveAddress(space: AddressSpace, v: nat, writable: bool, newpage: nat, count: array<nat>,
                        ghost views: seq<seq<Pte>>, ghost a: nat)
    returns (ghost after: System)
    requires Is(space, views, a) && v < USER_PAGES && newpage < count.Length
    modifies count, space.dir, space.Tables()
    ensures after == Resolved(old(System(views, count[..])), a, v, newpage, writable)
    ensures Is(space, after.views, a) && after.count == count[..]
    ensures forall t :: t in space.Tables() ==> t in old(space.Tables()) || fresh(t)
  {
    ghost var was := space.Tables();
    after := Resolved(System(views, count[..]), a, v, newpage, writable);
    var pgtbl := space.NeedTable(v / ENTRIES);
    assert space.Tables() <= was + {pgtbl};
    count[newpage] := 1;
    space.Write(pgtbl, v % ENTRIES, Entry(newpage, writable), v);
  }

  // __release_address: the mapping goes, and with the last one its page.
  method ReleaseAddress(space: AddressSpace, v: nat, count: array<nat>, ghost views: seq<seq<Pte>>, ghost a: nat)
    returns (ok: bool, ghost after: System)
    requires Is(space, views, a) && v < USER_PAGES
    requires views[a][v].Entry? ==> views[a][v].page < count.Length && count[views[a][v].page] >= 1
    modifies count, space.Tables()
    ensures ok == views[a][v].Entry?
    ensures after == if ok then Released(old(System(views, count[..])), a, v) else old(System(views, count[..]))
    ensures Is(space, after.views, a) && after.count == count[..]
  {
    after := System(views, count[..]);
    assert space.At(v) == views[a][v];
    if space.dir[v / ENTRIES] != null {
      var table: array<Pte> := space.dir[v / ENTRIES];
      var idx := v % ENTRIES;
      if table[idx] != Absent {
        after := Released(after, a, v);
        var ppg := table[idx].page;
        count[ppg] := count[ppg] - 1;
        space.Write(table, idx, Absent, v);
        return true, after;
      }
    }
    return false, after;
  }

  // on_protection_error for a write to a private, writable area; copy is what __alloc_page
  // hands out, memory holds the contents of the pages.
  method WriteFault(space: AddressSpace, v: nat, copy: nat, count: array<nat>, memory: array<Contents>,
                       ghost views: seq<seq<Pte>>, ghost a: nat)
    returns (ghost after: System)
    requires Is(space, views, a) && v < USER_PAGES && views[a][v].Entry?
    requires views[a][v].page < count.Length == memory.Length && count[views[a][v].page] >= 1 && copy < count.Length
    modifies count, memory, space.Tables()
    ensures after == Faulted(old(System(views, count[..])), a, v, copy)
    ensures memory[..] == Copied(old(System(views, count[..])), old(memory[..]), a, v, copy)
    ensures Is(space, after.views, a) && after.count == count[..]
  {
    after := Faulted(System(views, count[..]), a, v, copy);
    assert space.At(v) == views[a][v];
    var table: array<Pte> := space.dir[v / ENTRIES];
    var i, page := v % ENTRIES, table[v % ENTRIES].page;
    space.Write(table, i, Entry(page, true), v);
    if count[page] != 1 {
      memory[copy] := memory[page];
      count[page] := count[page] - 1;
      count[copy] := 1;
      space.Write(table, i, Entry(copy, true), v);
    }
  }
}
