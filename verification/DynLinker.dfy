// cmd/ld.c: the table of loaded modules, its closure under DT_NEEDED, and symbol search.
module DynLinker {
  import opened DynGraph
  import opened DynOrder
  import opened Wrappers

  const MAX_SO: nat := 1024
  const SHN_UNDEF: nat := 0
  const SHN_LORESERVE: nat := 0xff00
  const SHN_COMMON: nat := 0xfff2

  // Unresolved is a false return; Spin is the program stopping itself.
  datatype Verdict = Resolved | Unresolved | Spin

  datatype Search = NoSymbol | At(index: nat) | Strange(where: nat)

  datatype Origin = NoOrigin | From(slot: nat, sym: nat) | StrangeIn(slot: nat)

  predicate Defines(s: Sym, name: string) {
    s.shndx != SHN_UNDEF && s.name == name
  }

  predicate StrangeSym(s: Sym) {
    s.shndx != SHN_COMMON && s.shndx >= SHN_LORESERVE
  }

  // The first symbol of that name which is no mere reference.
  predicate FirstDefinition(syms: seq<Sym>, name: string, i: nat) {
    i < |syms| && Defines(syms[i], name) && forall j :: 0 <= j < i ==> !Defines(syms[j], name)
  }

  method SearchInDynsym(name: string, so: Module) returns (r: Search)
    ensures r.NoSymbol? <==> forall s :: s in so.dynsym ==> !Defines(s, name)
    ensures r.At? ==> FirstDefinition(so.dynsym, name, r.index) && !StrangeSym(so.dynsym[r.index])
    ensures r.Strange? ==> FirstDefinition(so.dynsym, name, r.where) && StrangeSym(so.dynsym[r.where])
    ensures r.NoSymbol? <==> forall s :: s in so.dynsym && s.name == name ==> s.shndx == 0
    ensures r.At? ==>
      && r.index < |so.dynsym| && so.dynsym[r.index].name == name
      && (0 < so.dynsym[r.index].shndx < 0xff00 || so.dynsym[r.index].shndx == 0xfff2)
      && forall j :: 0 <= j < r.index && so.dynsym[j].name == name ==> so.dynsym[j].shndx == 0
    ensures r.Strange? ==>
      && r.where < |so.dynsym| && so.dynsym[r.where].name == name
      && so.dynsym[r.where].shndx >= 0xff00 && so.dynsym[r.where].shndx != 0xfff2
  {
    for i := 0 to |so.dynsym|
      invariant forall j :: 0 <= j < i ==> !Defines(so.dynsym[j], name)
    {
      var sym := so.dynsym[i];
      if sym.shndx == SHN_UNDEF { continue; }
      if sym.name == name {
        assert Defines(sym, name) && sym in so.dynsym;
        if sym.shndx != SHN_COMMON && sym.shndx >= SHN_LORESERVE { return Strange(i); }
        return At(i);
      }
    }
    return NoSymbol;
  }

  class Linker {
    const env: Env
    const mmapOfSo: array<Option<Module>>
    var right: nat
    ghost var table: seq<Module>    // slots 0 to right
    ghost var depth: seq<nat>       // how many DT_NEEDED edges away each one is
    ghost const reach: set<string>  // the libraries that will ever be needed

    ghost predicate Valid()
      reads this, mmapOfSo
    {
      && mmapOfSo.Length == MAX_SO && Covers(env, reach) && 2 + |reach| <= MAX_SO
      && right + 1 == |table| == |depth| <= MAX_SO && Shape(env, table)
      && (forall i :: 0 <= i < MAX_SO ==> mmapOfSo[i] == if i <= right then Some(table[i]) else None)
    }

    // Slot 0 is the linker, slot 1 the executable (_start up to resolve_dependenceR).
    constructor (env: Env, ghost reach: set<string>)
      requires Covers(env, reach) && 2 + |reach| <= MAX_SO
      ensures this.env == env && Valid() && fresh(mmapOfSo)
      ensures Resolving(env, table, depth, 0, 0)
    {
      this.env, this.reach := env, reach;
      right := 1;
      table, depth := [env.ld, env.exec], [0, 0];
      mmapOfSo := new Option<Module>[MAX_SO](i => None);
      new;
      mmapOfSo[0], mmapOfSo[1] := Some(env.ld), Some(env.exec);
      Started(env);
    }

    // resolve_needed for the t-th need of module i.
    method ResolveNeeded(name: string, ghost i: nat, ghost t: nat) returns (v: Verdict)
      requires Valid() && Resolving(env, table, depth, i, t) && i < |table| && t < |table[i].needed|
      requires name == table[i].needed[t] != LIBC
      modifies this, mmapOfSo
      ensures Valid() && old(table) <= table
      ensures v == Resolved <==> env.Good(name)
      ensures v == Resolved ==> Resolving(env, table, depth, i, t + 1)
      ensures v != Resolved ==> table == old(table) && depth == old(depth)
      ensures v == Spin <==> name == env.ld.name
      ensures v == Resolved <==> name != env.ld.name && (name == env.exec.name || name in env.lib)
      ensures v == Resolved ==> exists b :: 0 <= b < |table| && table[b].name == name
      ensures table == if v == Resolved && forall m :: m in old(table) ==> m.name != name
                       then old(table) + [Module(name, env.lib[name].needed, env.lib[name].dynsym)] else old(table)
    {
      hide Resolving;
      for k := 0 to right + 1
        invariant Valid() && table == old(table) && depth == old(depth) && right == old(right)
        invariant k > 0 ==> name != env.ld.name
        invariant forall j :: 0 <= j < k ==> table[j].name != name
      {
        var so := mmapOfSo[k].value;
        if so.name == name {
          if k == 0 { return Spin; }
          AlreadyThere(env, table, depth, i, t, k);
          return Resolved;
        }
      }
      assert name !in Names(table);
      assert env.exec.name == table[1].name != name;
      if name !in env.lib { return Unresolved; }
      var mmap := env.Load(name);
      NeedCovered(env, table, depth, i, t, reach);
      TableBound(env, table, depth, i, reach);
      Loaded(env, table, depth, i, t);
      LoadedShape(env, table, mmap);
      right := right + 1;
      mmapOfSo[right] := Some(mmap);
      table, depth := table + [mmap], depth + [depth[i] + 1];
      return Resolved;
    }

    // resolve_dependence: the needs of module i, in their order.
    method ResolveDependence(so: Module, ghost i: nat) returns (v: Verdict)
      requires Valid() && Resolving(env, table, depth, i, 0) && i < |table| && so == table[i]
      modifies this, mmapOfSo
      ensures Valid() && old(table) <= table
      ensures v == Resolved ==> Resolving(env, table, depth, i + 1, 0)
      ensures v != Resolved ==> !AllResolvable(env)
    {
      hide Resolving, AllResolvable, Shape;
      for t := 0 to |so.needed|
        invariant Valid() && old(table) <= table && so == table[i]
        invariant Resolving(env, table, depth, i, t)
      {
        var soname := so.needed[t];
        if soname == LIBC {
          SkipLibc(env, table, depth, i, t);
        } else {
          var one := ResolveNeeded(soname, i, t);
          if one != Resolved {
            BadNeed(env, table, depth, i, t);
            return one;
          }
        }
      }
      NextModule(env, table, depth, i);
      return Resolved;
    }

    // resolve_dependenceR: module by module, while right moves on. It succeeds just when
    // every name in reach can be resolved.
    method ResolveDependenceR() returns (v: Verdict)
      requires Valid() && Resolving(env, table, depth, 0, 0)
      modifies this, mmapOfSo
      ensures Valid() && old(table) <= table
      ensures v == Resolved <==> AllResolvable(env)
      ensures v == Resolved ==> Resolving(env, table, depth, |table|, 0)
      ensures v == Resolved ==> Names(table) == First(env, Mentions(table, |table|))
      ensures v == Resolved ==>
        forall a, n :: 0 <= a < |table| && n in table[a].needed && n != "libc.so.6" ==>
          exists b :: 0 <= b < |table| && table[b].name == n
    {
      hide Resolving, AllResolvable, Shape;
      var i := 0;
      while i <= right
        invariant Valid() && old(table) <= table && i <= |table|
        invariant Resolving(env, table, depth, i, 0)
        decreases MAX_SO - i
      {
        var so := mmapOfSo[i].value;
        v := ResolveDependence(so, i);
        if v != Resolved { return; }
        i := i + 1;
      }
      FinishedResolvable(env, table, depth);
      FinishedOrder(env, table, depth);
      NeedsMet(env, table, depth);
      return Resolved;
    }

    // find_symbol: the first module of the table that defines the name.
    method FindSymbol(name: string) returns (origin: Origin)
      requires Valid()
      ensures origin.NoOrigin? <==> forall m :: m in table ==> !DefinedIn(m, name)
      ensures origin.From? ==>
        && FirstWith(table, name, origin.slot)
        && FirstDefinition(table[origin.slot].dynsym, name, origin.sym)
        && !StrangeSym(table[origin.slot].dynsym[origin.sym])
      ensures origin.StrangeIn? ==> FirstWith(table, name, origin.slot)
      ensures origin.NoOrigin? <==> forall m, s :: m in table && s in m.dynsym && s.name == name ==> s.shndx == 0
      ensures origin.From? ==>
        && origin.slot < |table| && origin.sym < |table[origin.slot].dynsym|
        && table[origin.slot].dynsym[origin.sym].name == name && table[origin.slot].dynsym[origin.sym].shndx != 0
        && forall j, s :: 0 <= j < origin.slot && s in table[j].dynsym && s.name == name ==> s.shndx == 0
      ensures origin.StrangeIn? ==> exists s ::
        s in table[origin.slot].dynsym && s.name == name && s.shndx >= 0xff00 && s.shndx != 0xfff2
    {
      for i := 0 to MAX_SO
        invariant forall j :: 0 <= j < i && j < |table| ==> !DefinedIn(table[j], name)
      {
        if mmapOfSo[i].None? { continue; }
        var so := mmapOfSo[i].value;
        assert so == table[i] && so in table;
        var r := SearchInDynsym(name, so);
        match r
        case At(k) => return From(i, k);
        case Strange(_) => return StrangeIn(i);
        case NoSymbol =>
      }
      return NoOrigin;
    }
  }

  // In a finished table every need is the name of some slot.
  lemma NeedsMet(env: Env, table: seq<Module>, depth: seq<nat>)
    requires Resolving(env, table, depth, |table|, 0)
    ensures forall a, n :: 0 <= a < |table| && n in table[a].needed && n != "libc.so.6" ==>
      exists b :: 0 <= b < |table| && table[b].name == n
  {
    hide Shape, Leveled, First, Mentions, Wanted;
    forall a, n | 0 <= a < |table| && n in table[a].needed && n != "libc.so.6"
      ensures exists b :: 0 <= b < |table| && table[b].name == n
    {
      var c :| 0 <= c < |table[a].needed| && table[a].needed[c] == n;
      assert Served(env, table, depth, a, table[a].needed[c]);
      var b :| 0 <= b < |table| && table[b] == env.Target(n);
      assert table[b].name == n;
    }
  }

  ghost predicate DefinedIn(m: Module, name: string) {
    exists s :: s in m.dynsym && Defines(s, name)
  }

  ghost predicate FirstWith(table: seq<Module>, name: string, i: nat) {
    i < |table| && DefinedIn(table[i], name) && forall j :: 0 <= j < i ==> !DefinedIn(table[j], name)
  }

  // After a complete resolution the definition found is one nearest to the start: no
  // module in reach at a smaller distance defines the name.
  lemma NearestDefinition(env: Env, table: seq<Module>, depth: seq<nat>, name: string, i: nat, m: Module, d: nat)
    requires Resolving(env, table, depth, |table|, 0) && FirstWith(table, name, i)
    requires m in Within(env, d) && DefinedIn(m, name)
    ensures table[i] in Within(env, d)
  {
    hide DefinedIn, First, Mentions, Wanted;
    InTable(env, table, depth, d, m);
    var b :| 0 <= b < |table| && table[b] == m && depth[b] <= d;
    DepthIsDistance(env, table, depth, i, d);
  }

  // The executable comes first in the gABI's order; here the linker itself does. Where the
  // linker needs nothing, the answer for a name is that of the executable's own order (order
  // slot k being table slot k + 1) if and only if the linker does not define the name.
  lemma ExecutableFirst(env: Env, table: seq<Module>, depth: seq<nat>, order: seq<Module>, name: string)
    requires Resolving(env, table, depth, |table|, 0) && LinkerAlone(env) && SearchOrder(env, {}, order)
    ensures |table| == |order| + 1
    ensures (forall i: nat :: FirstWith(table, name, i) <==> i >= 1 && FirstWith(order, name, i - 1))
      <==> !DefinedIn(env.ld, name)
  {
    hide DefinedIn, SearchOrder;
    TableIsSearchOrder(env, table, depth);
    SearchOrderUnique(env, {}, order, table[1..]);
    hide Resolving;
    assert table[0] == env.ld by { SlotZero(env, table, depth); }
    if DefinedIn(env.ld, name) {
      assert FirstWith(table, name, 0);
    } else {
      forall i: nat
        ensures FirstWith(table, name, i) <==> i >= 1 && FirstWith(order, name, i - 1)
      {
        BehindSlotZero(table, name, i);
      }
    }
  }

  // The first module that defines the name.
  ghost function FirstDefiner(ms: seq<Module>, name: string): Option<Module> {
    if ms == [] then None
    else if FirstDefiner(ms[..|ms| - 1], name).Some? then FirstDefiner(ms[..|ms| - 1], name)
    else if DefinedIn(ms[|ms| - 1], name) then Some(ms[|ms| - 1]) else None
  }

  lemma {:induction false} FirstDefinerIs(ms: seq<Module>, name: string)
    ensures FirstDefiner(ms, name) == None <==> forall m :: m in ms ==> !DefinedIn(m, name)
    ensures forall i: nat :: FirstWith(ms, name, i) ==> FirstDefiner(ms, name) == Some(ms[i])
  {
    hide DefinedIn;
    if ms != [] {
      var first := ms[..|ms| - 1];
      FirstDefinerIs(first, name);
      assert ms == first + [ms[|ms| - 1]];
      forall i: nat | FirstWith(ms, name, i)
        ensures FirstDefiner(ms, name) == Some(ms[i])
      {
        if i < |first| {
          assert FirstWith(first, name, i);
        } else {
          assert forall m :: m in first ==> !DefinedIn(m, name);
        }
      }
    }
  }

  lemma DefinerOneMore(ms: seq<Module>, m: Module, name: string)
    ensures FirstDefiner(ms + [m], name)
      == if FirstDefiner(ms, name).Some? then FirstDefiner(ms, name)
         else if DefinedIn(m, name) then Some(m) else None
  {
    assert (ms + [m])[..|ms|] == ms;
  }

  lemma {:induction false} DefinerOutside(ms: seq<Module>, skip: set<string>, name: string)
    requires forall m :: m in ms && m.name in skip ==> !DefinedIn(m, name)
    ensures FirstDefiner(ms, name) == FirstDefiner(Outside(ms, skip), name)
  {
    hide DefinedIn, FirstDefiner;
    if ms == [] {
      assert Outside(ms, skip) == ms;
    } else {
      var first, m := ms[..|ms| - 1], ms[|ms| - 1];
      assert ms == first + [m];
      DefinerOutside(first, skip, name);
      OutsideOneMore(first, m, skip);
      hide Outside;
      DefinerOneMore(first, m, name);
      DefinerOneMore(Outside(first, skip), m, name);
      assert Outside(first, skip) + [] == Outside(first, skip);
    }
  }

  // Nothing that skip names defines the name.
  ghost predicate NoneDefines(env: Env, skip: set<string>, name: string) {
    !DefinedIn(env.ld, name) && forall m :: m in skip && env.Good(m) ==> !DefinedIn(env.Target(m), name)
  }

  // Whatever the linker needs: if skip holds the names in its reach, the executable not among
  // them, a name that none of these defines is found where the executable's own order finds it.
  lemma SameOutside(env: Env, table: seq<Module>, depth: seq<nat>, order: seq<Module>, skip: set<string>, name: string)
    requires Resolving(env, table, depth, |table|, 0) && SearchOrder(env, {}, order)
    requires Shut(env, skip) && NoneDefines(env, skip, name)
    ensures FirstDefiner(table, name) == FirstDefiner(order, name)
  {
    hide DefinedIn, FirstDefiner, Resolving, SearchOrder, Outside;
    AgreeOutside(env, table, depth, order, skip);
    InReachNamed(env, table, depth, order);
    DefinerOutside(table, skip, name);
    DefinerOutside(order, skip, name);
  }

  lemma InReachNamed(env: Env, table: seq<Module>, depth: seq<nat>, order: seq<Module>)
    requires Resolving(env, table, depth, |table|, 0) && SearchOrder(env, {}, order)
    ensures forall m :: m in table || m in order ==>
      m == env.ld || m == env.exec || (env.Good(m.name) && m == env.Target(m.name))
  {
    hide Mentions, Merge, Within, Wanted, FromExec;
  }

  lemma SlotZero(env: Env, table: seq<Module>, depth: seq<nat>)
    requires Resolving(env, table, depth, |table|, 0)
    ensures |table| >= 2 && table[0] == env.ld
  {}

  lemma BehindSlotZero(table: seq<Module>, name: string, i: nat)
    requires table != [] && !DefinedIn(table[0], name)
    ensures FirstWith(table, name, i) <==> i >= 1 && FirstWith(table[1..], name, i - 1)
  {
    hide DefinedIn;
    var order := table[1..];
    if i >= 1 && FirstWith(order, name, i - 1) {
      assert forall j :: 1 <= j < i ==> order[j - 1] == table[j];
    }
  }

  // Behind slot 0 the definition found is one nearest to the executable.
  lemma NearestToExecutable(env: Env, table: seq<Module>, depth: seq<nat>, name: string, i: nat, m: Module, d: nat)
    requires Resolving(env, table, depth, |table|, 0) && LinkerAlone(env)
    requires FirstWith(table, name, i) && i >= 1 && m in FromExec(env, {}, d) && DefinedIn(m, name)
    ensures table[i] in FromExec(env, {}, d)
  {
    hide DefinedIn;
    WithinIs(env, d);
    NearestDefinition(env, table, depth, name, i, m, d);
    hide Within, First, Mentions, Wanted;
    if i == 1 {
      ExecNear(env, d);
    } else {
      assert env.Good(table[i].name);
    }
  }

  lemma {:induction false} ExecNear(env: Env, d: nat)
    ensures env.exec in FromExec(env, {}, d)
  {
    if d > 0 { ExecNear(env, d - 1); }
  }

  // A linker and an executable that both define f: the linker's is found, the executable's
  // should be.
  lemma LinkerShadows()
    ensures
      var f := Sym("f", 1);
      var ld, exec := Module("ld.so", [], [f]), Module("a.out", [], [f]);
      var env := Env(ld, exec, map[]);
      && Resolving(env, [ld, exec], [0, 0], 2, 0) && LinkerAlone(env) && SearchOrder(env, {}, [exec])
      && FirstWith([ld, exec], "f", 0) && FirstWith([exec], "f", 0)
  {
    var f := Sym("f", 1);
    var ld, exec := Module("ld.so", [], [f]), Module("a.out", [], [f]);
    var env := Env(ld, exec, map[]);
    Started(env);
    NextModule(env, [ld, exec], [0, 0], 0);
    NextModule(env, [ld, exec], [0, 0], 1);
    assert f in ld.dynsym && f in exec.dynsym && Defines(f, "f");
    assert Mentions([exec], 1) == [] && Said([exec], {}, 1) == [];
    assert exec in FromExec(env, {}, 0);
  }
}
