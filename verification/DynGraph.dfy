// cmd/ld.c: what the dynamic linker is to load. The graph of DT_NEEDED entries,
// distances in it from the linker and the executable, and the order of first mention.
module DynGraph {

  const LIBC := "libc.so.6"

  // A dynamic symbol; shndx SHN_UNDEF marks a reference to another module.
  datatype Sym = Sym(name: string, shndx: nat)

  datatype Module = Module(name: string, needed: seq<string>, dynsym: seq<Sym>)

  datatype Image = Image(needed: seq<string>, dynsym: seq<Sym>)

  // The two modules present from the start (slots 0 and 1) and the files loadso can load.
  datatype Env = Env(ld: Module, exec: Module, lib: map<string, Image>) {

    function Load(name: string): Module
      requires name in lib
    {
      Module(name, lib[name].needed, lib[name].dynsym)
    }

    // A name that can be resolved: nobody may need the linker itself.
    predicate Good(name: string) {
      name != ld.name && (name == exec.name || name in lib)
    }

    function Target(name: string): Module
      requires Good(name)
    {
      if name == exec.name then exec else Load(name)
    }
  }

  // What the modules of a set need, libc.so.6 excepted.
  ghost function Targets(env: Env, ms: set<Module>): set<Module> {
    set m, n | m in ms && n in m.needed && n != LIBC && env.Good(n) :: env.Target(n)
  }

  // The modules at most d DT_NEEDED edges away from slots 0 and 1.
  ghost function Within(env: Env, d: nat): set<Module> {
    if d == 0 then {env.ld, env.exec}
    else Within(env, d - 1) + Targets(env, Within(env, d - 1))
  }

  // No module in reach needs what cannot be resolved.
  ghost predicate AllResolvable(env: Env) {
    forall d: nat, m, n :: m in Within(env, d) && n in m.needed && n != LIBC ==> env.Good(n)
  }

  ghost predicate Shape(env: Env, table: seq<Module>) {
    && |table| >= 2 && table[0] == env.ld && table[1] == env.exec
    && (forall b :: 2 <= b < |table| ==> env.Good(table[b].name) && table[b] == env.Target(table[b].name))
    && (forall a, b :: 0 <= a < b < |table| && b >= 2 ==> table[a].name != table[b].name)
  }

  // depth[b] bounds the distance of slot b, and module i is the one being resolved.
  ghost predicate Leveled(env: Env, table: seq<Module>, depth: seq<nat>, i: nat) {
    && |depth| == |table| >= 2 && depth[0] == depth[1] == 0
    && (forall a, b :: 0 <= a <= b < |depth| ==> depth[a] <= depth[b])
    && (i < |depth| ==> forall b :: 0 <= b < |depth| ==> depth[b] <= depth[i] + 1)
    && (forall b :: 0 <= b < |table| ==> table[b] in Within(env, depth[b]))
  }

  // Slot a's need for name n is met, one level further at most.
  ghost predicate Served(env: Env, table: seq<Module>, depth: seq<nat>, a: nat, n: string) {
    n != LIBC ==>
      && env.Good(n) && a < |depth| == |table|
      && exists b :: 0 <= b < |table| && table[b] == env.Target(n) && depth[b] <= depth[a] + 1
  }

  // All needs of the first i modules, and t needs of the next, are met.
  ghost predicate Closed(env: Env, table: seq<Module>, depth: seq<nat>, i: nat, t: nat) {
    forall a, c :: 0 <= a < |table| && 0 <= c < |table[a].needed| && (a < i || (a == i && c < t)) ==>
      Served(env, table, depth, a, table[a].needed[c])
  }

  // The linker's progress: t needs of module i are done.
  ghost predicate Resolving(env: Env, table: seq<Module>, depth: seq<nat>, i: nat, t: nat) {
    && Shape(env, table) && Leveled(env, table, depth, i) && Closed(env, table, depth, i, t)
    && i <= |table| && (i < |table| ==> t <= |table[i].needed|) && (i == |table| ==> t == 0)
    && Names(table) == First(env, Mentions(table, i) + Wanted(if i < |table| then table[i].needed[..t] else []))
  }

  function Names(table: seq<Module>): (names: seq<string>)
    ensures |names| == |table| && forall i :: 0 <= i < |table| ==> names[i] == table[i].name
  {
    seq(|table|, i requires 0 <= i < |table| => table[i].name)
  }

  function Wanted(needed: seq<string>): seq<string> {
    if needed == [] then []
    else Wanted(needed[..|needed| - 1]) + (if needed[|needed| - 1] == LIBC then [] else [needed[|needed| - 1]])
  }

  // Everything the first i modules want, module by module.
  function Mentions(table: seq<Module>, i: nat): seq<string>
    requires i <= |table|
  {
    if i == 0 then [] else Mentions(table, i - 1) + Wanted(table[i - 1].needed)
  }

  // The starting names, then each mentioned name where it comes first.
  function Merge(start: seq<string>, mentions: seq<string>): seq<string> {
    if mentions == [] then start
    else
      var names, n := Merge(start, mentions[..|mentions| - 1]), mentions[|mentions| - 1];
      if n in names then names else names + [n]
  }

  function First(env: Env, mentions: seq<string>): seq<string> {
    Merge([env.ld.name, env.exec.name], mentions)
  }

  lemma Started(env: Env)
    ensures Resolving(env, [env.ld, env.exec], [0, 0], 0, 0)
  {
    assert Mentions([env.ld, env.exec], 0) + Wanted([]) == [];
  }

  lemma {:induction false} MentionsGrow(table: seq<Module>, m: Module, i: nat)
    requires i <= |table|
    ensures Mentions(table + [m], i) == Mentions(table, i)
  {
    if i > 0 { MentionsGrow(table, m, i - 1); }
  }

  // The names table after one more need.
  lemma OneMore(env: Env, before: seq<string>, needed: seq<string>, t: nat)
    requires t < |needed|
    ensures
      var names := First(env, before + Wanted(needed[..t]));
      First(env, before + Wanted(needed[..t + 1])) ==
        if needed[t] == LIBC || needed[t] in names then names else names + [needed[t]]
  {
    assert needed[..t + 1][..t] == needed[..t];
    if needed[t] == LIBC {
      assert Wanted(needed[..t + 1]) == Wanted(needed[..t]);
    } else {
      var all := before + Wanted(needed[..t + 1]);
      assert all[..|all| - 1] == before + Wanted(needed[..t]);
    }
  }

  lemma SkipLibc(env: Env, table: seq<Module>, depth: seq<nat>, i: nat, t: nat)
    requires Resolving(env, table, depth, i, t) && i < |table| && t < |table[i].needed|
    requires table[i].needed[t] == LIBC
    ensures Resolving(env, table, depth, i, t + 1)
  {
    hide First, Mentions, Wanted, Within, Shape, Leveled;
    OneMore(env, Mentions(table, i), table[i].needed, t);
    assert Served(env, table, depth, i, table[i].needed[t]);
    hide Served;
  }

  lemma AlreadyThere(env: Env, table: seq<Module>, depth: seq<nat>, i: nat, t: nat, k: nat)
    requires Resolving(env, table, depth, i, t) && i < |table| && t < |table[i].needed|
    requires 1 <= k < |table| && table[k].name == table[i].needed[t] != env.ld.name
    ensures Resolving(env, table, depth, i, t + 1)
  {
    hide First, Mentions, Wanted, Within;
    OneMore(env, Mentions(table, i), table[i].needed, t);
    assert Names(table)[k] == table[k].name;
    assert Served(env, table, depth, i, table[i].needed[t]) by {
      assert table[k] == env.Target(table[k].name);
    }
  }

  lemma Loaded(env: Env, table: seq<Module>, depth: seq<nat>, i: nat, t: nat)
    requires Resolving(env, table, depth, i, t) && i < |table| && t < |table[i].needed|
    requires var n := table[i].needed[t]; n != LIBC && n in env.lib && n !in Names(table)
    ensures Resolving(env, table + [env.Load(table[i].needed[t])], depth + [depth[i] + 1], i, t + 1)
  {
    hide First, Mentions, Wanted, Within;
    var n := table[i].needed[t];
    var m := env.Load(n);
    var table', depth' := table + [m], depth + [depth[i] + 1];
    assert Names(table)[0] == env.ld.name && Names(table)[1] == env.exec.name;
    assert env.Good(n) && env.Target(n) == m;
    assert m in Within(env, depth[i] + 1) by { OneEdge(env, depth[i], table[i], n); }
    LoadedShape(env, table, m);
    LoadedClosed(env, table, depth, i, t);
    OneMore(env, Mentions(table, i), table[i].needed, t);
    MentionsGrow(table, m, i);
    assert Names(table') == Names(table) + [n];
  }

  lemma OneEdge(env: Env, d: nat, m: Module, n: string)
    requires m in Within(env, d) && n in m.needed && n != LIBC && env.Good(n)
    ensures env.Target(n) in Within(env, d + 1)
  {}

  lemma LoadedShape(env: Env, table: seq<Module>, m: Module)
    requires Shape(env, table) && m.name !in Names(table)
    requires m.name in env.lib && m == env.Load(m.name)
    ensures Shape(env, table + [m])
  {
    assert forall a :: 0 <= a < |table| ==> Names(table)[a] == table[a].name;
    assert Names(table)[0] == env.ld.name && Names(table)[1] == env.exec.name;
  }

  lemma LoadedClosed(env: Env, table: seq<Module>, depth: seq<nat>, i: nat, t: nat)
    requires Closed(env, table, depth, i, t) && i < |table| == |depth| && t < |table[i].needed|
    requires var n := table[i].needed[t]; env.Good(n) && n in env.lib && env.Target(n) == env.Load(n)
    ensures Closed(env, table + [env.Load(table[i].needed[t])], depth + [depth[i] + 1], i, t + 1)
  {
    var m := env.Load(table[i].needed[t]);
    var table', depth' := table + [m], depth + [depth[i] + 1];
    forall a, c | 0 <= a < |table'| && 0 <= c < |table'[a].needed| && (a < i || (a == i && c < t + 1))
      ensures Served(env, table', depth', a, table'[a].needed[c])
    {
      var n := table[a].needed[c];
      if a == i && c == t {
        assert table'[|table|] == m;
      } else if n != LIBC {
        assert Served(env, table, depth, a, n);
        var b :| 0 <= b < |table| && table[b] == env.Target(n) && depth[b] <= depth[a] + 1;
        assert table'[b] == env.Target(n);
      }
    }
  }

  lemma NextModule(env: Env, table: seq<Module>, depth: seq<nat>, i: nat)
    requires i < |table| && Resolving(env, table, depth, i, |table[i].needed|)
    ensures Resolving(env, table, depth, i + 1, 0)
  {
    hide First, Within;
    assert table[i].needed[..|table[i].needed|] == table[i].needed;
    assert Mentions(table, i + 1) + Wanted([]) == Mentions(table, i) + Wanted(table[i].needed);
    assert i + 1 < |table| ==> table[i + 1].needed[..0] == [];
  }

  lemma {:induction false} WithinMonotone(env: Env, d: nat, e: nat)
    requires d <= e
    ensures Within(env, d) <= Within(env, e)
  {
    if d < e { WithinMonotone(env, d, e - 1); }
  }

  lemma NeedInTable(env: Env, table: seq<Module>, depth: seq<nat>, a: nat, n: string)
    requires Resolving(env, table, depth, |table|, 0) && a < |table| == |depth|
    requires n in table[a].needed && n != LIBC
    ensures env.Good(n) && exists b :: 0 <= b < |table| && table[b] == env.Target(n) && depth[b] <= depth[a] + 1
  {
    hide First, Mentions, Wanted, Names, Shape, Leveled;
    var c :| 0 <= c < |table[a].needed| && table[a].needed[c] == n;
    assert Served(env, table, depth, a, table[a].needed[c]);
  }

  // Everything within distance d is in the table, no deeper than d.
  lemma {:induction false} InTable(env: Env, table: seq<Module>, depth: seq<nat>, d: nat, m: Module)
    requires Resolving(env, table, depth, |table|, 0) && m in Within(env, d)
    ensures exists b :: 0 <= b < |table| && table[b] == m && depth[b] <= d
  {
    hide First, Mentions, Wanted, Names;
    if d == 0 {
      assert m == table[0] || m == table[1];
    } else if m in Within(env, d - 1) {
      InTable(env, table, depth, d - 1, m);
    } else {
      hide Shape, Leveled, Resolving, Within;
      var p, n :| p in Within(env, d - 1) && n in p.needed && n != LIBC && env.Good(n) && env.Target(n) == m;
      InTable(env, table, depth, d - 1, p);
      var a :| 0 <= a < |table| && table[a] == p && depth[a] <= d - 1;
      NeedInTable(env, table, depth, a, n);
    }
  }

  // The finished table: exactly what is in reach, each slot at its distance.
  lemma DepthIsDistance(env: Env, table: seq<Module>, depth: seq<nat>, j: nat, d: nat)
    requires Resolving(env, table, depth, |table|, 0) && j < |table|
    ensures table[j] in Within(env, d) <==> depth[j] <= d
  {
    hide First, Mentions, Wanted;
    if depth[j] <= d { WithinMonotone(env, depth[j], d); }
    if table[j] in Within(env, d) { NoDeeper(env, table, depth, j, d); }
  }

  lemma NoDeeper(env: Env, table: seq<Module>, depth: seq<nat>, j: nat, d: nat)
    requires Resolving(env, table, depth, |table|, 0) && j < |table| && table[j] in Within(env, d)
    ensures depth[j] <= d
  {
    hide First, Mentions, Wanted, Within;
    InTable(env, table, depth, d, table[j]);
    var b :| 0 <= b < |table| && table[b] == table[j] && depth[b] <= d;
    if b < j { assert j < 2; } else { assert depth[j] <= depth[b]; }
  }

  // Breadth first: nobody in the table is nearer to the start than one before it.
  lemma BreadthFirst(env: Env, table: seq<Module>, depth: seq<nat>, i: nat, j: nat, d: nat)
    requires Resolving(env, table, depth, |table|, 0) && i <= j < |table|
    requires table[j] in Within(env, d)
    ensures table[i] in Within(env, d)
  {
    DepthIsDistance(env, table, depth, j, d);
    DepthIsDistance(env, table, depth, i, d);
  }

  lemma FinishedOrder(env: Env, table: seq<Module>, depth: seq<nat>)
    requires Resolving(env, table, depth, |table|, 0)
    ensures Names(table) == First(env, Mentions(table, |table|))
  {
    assert Mentions(table, |table|) + Wanted([]) == Mentions(table, |table|);
  }

  // The names are those said, all of them, and in the order they are first said (the two
  // starting names apart).
  ghost predicate InOrder(names: seq<string>, said: seq<string>) {
    && (forall n :: n in names <==> n in said)
    && (forall p, q :: 0 <= p < q < |names| && q >= 2 ==> SaidBefore(said, names[p], names[q]))
  }

  lemma {:induction false} FirstMentionOrder(env: Env, mentions: seq<string>)
    ensures InOrder(First(env, mentions), [env.ld.name, env.exec.name] + mentions)
  {
    var start := [env.ld.name, env.exec.name];
    if mentions == [] {
      assert start + mentions == start;
    } else {
      var before, n := mentions[..|mentions| - 1], mentions[|mentions| - 1];
      FirstMentionOrder(env, before);
      assert start + mentions == (start + before) + [n];
      SayOneMore(First(env, before), start + before, n);
    }
  }

  lemma SayOneMore(names: seq<string>, said: seq<string>, n: string)
    requires InOrder(names, said)
    ensures InOrder(if n in names then names else names + [n], said + [n])
  {
    var names' := if n in names then names else names + [n];
    forall p, q | 0 <= p < q < |names'| && q >= 2
      ensures SaidBefore(said + [n], names'[p], names'[q])
    {
      if q < |names| {
        assert SaidBefore(said, names[p], names[q]);
        SaidBeforeGrows(said, n, names[p], names[q]);
      } else {
        assert names[p] in said;
        var u :| 0 <= u < |said| && said[u] == names[p];
        assert (said + [n])[..u + 1] == said[..u + 1];
      }
    }
  }

  // a occurs at a place up to which there is no b.
  ghost predicate SaidBefore(said: seq<string>, a: string, b: string) {
    exists u :: 0 <= u < |said| && said[u] == a && b !in said[..u + 1]
  }

  lemma SaidBeforeGrows(said: seq<string>, n: string, a: string, b: string)
    requires SaidBefore(said, a, b)
    ensures SaidBefore(said + [n], a, b)
  {
    var u :| 0 <= u < |said| && said[u] == a && b !in said[..u + 1];
    assert (said + [n])[..u + 1] == said[..u + 1];
  }

  // Success means that everything in reach could be resolved; a bad need rules it out.
  lemma FinishedResolvable(env: Env, table: seq<Module>, depth: seq<nat>)
    requires Resolving(env, table, depth, |table|, 0)
    ensures AllResolvable(env)
  {
    forall d: nat, m, n | m in Within(env, d) && n in m.needed && n != LIBC
      ensures env.Good(n)
    {
      InTable(env, table, depth, d, m);
      var a :| 0 <= a < |table| && table[a] == m && depth[a] <= d;
      var c :| 0 <= c < |m.needed| && m.needed[c] == n;
      assert Served(env, table, depth, a, table[a].needed[c]);
    }
  }

  lemma BadNeed(env: Env, table: seq<Module>, depth: seq<nat>, i: nat, t: nat)
    requires Resolving(env, table, depth, i, t) && i < |table| && t < |table[i].needed|
    requires table[i].needed[t] != LIBC && !env.Good(table[i].needed[t])
    ensures !AllResolvable(env)
  {
    assert table[i] in Within(env, depth[i]) && table[i].needed[t] in table[i].needed;
  }

  // All names of libraries that anything in reach needs.
  ghost predicate Covers(env: Env, reach: set<string>) {
    forall d: nat, m, n :: m in Within(env, d) && n in m.needed && n != LIBC && n in env.lib ==> n in reach
  }

  lemma {:induction false} LoadedNames(env: Env, reach: set<string>, d: nat, m: Module)
    requires Covers(env, reach) && m in Within(env, d)
    ensures m == env.ld || m == env.exec || m.name in reach
  {
    if d > 0 {
      if m in Within(env, d - 1) {
        LoadedNames(env, reach, d - 1, m);
      } else {
        var p, n :| p in Within(env, d - 1) && n in p.needed && n != LIBC && env.Good(n) && env.Target(n) == m;
        hide Within;
        assert n in env.lib ==> n in reach;
      }
    }
  }

  // The table never outgrows the libraries in reach.
  lemma TableBound(env: Env, table: seq<Module>, depth: seq<nat>, i: nat, reach: set<string>)
    requires Shape(env, table) && Leveled(env, table, depth, i) && Covers(env, reach)
    ensures |table| <= 2 + |reach|
    ensures forall n :: n in reach && n !in Names(table) && n != env.exec.name ==> |table| < 2 + |reach|
  {
    hide Within;
    var names := Names(table)[2..];
    forall b | 0 <= b < |names|
      ensures names[b] == table[b + 2].name && names[b] in reach
    {
      assert table[0].name != table[b + 2].name && table[1].name != table[b + 2].name;
      LoadedNames(env, reach, depth[b + 2], table[b + 2]);
    }
    SubsetSize(names, reach);
    forall n | n in reach && n !in Names(table) && n != env.exec.name
      ensures |table| < 2 + |reach|
    {
      assert n !in names;
      SubsetSize(names + [n], reach);
    }
  }

  lemma NeedCovered(env: Env, table: seq<Module>, depth: seq<nat>, i: nat, t: nat, reach: set<string>)
    requires Resolving(env, table, depth, i, t) && i < |table| && t < |table[i].needed| && Covers(env, reach)
    ensures Shape(env, table) && Leveled(env, table, depth, i)
    ensures var n := table[i].needed[t]; n != LIBC && n in env.lib ==> n in reach
  {
    hide First, Mentions, Wanted, Within;
    assert table[i] in Within(env, depth[i]) && table[i].needed[t] in table[i].needed;
  }

  lemma {:induction false} SubsetSize(names: seq<string>, keys: set<string>)
    requires forall a, b :: 0 <= a < b < |names| ==> names[a] != names[b]
    requires forall a :: 0 <= a < |names| ==> names[a] in keys
    ensures |names| <= |keys|
  {
    if names != [] {
      SubsetSize(names[1..], keys - {names[0]});
    }
  }
}
