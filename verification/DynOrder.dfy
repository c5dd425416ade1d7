// The search order the System V gABI (chapter 5, "Shared Object Dependencies") asks for: the
// executable, then what it needs, level by level. What cmd/ld.c builds compared with it.
module DynOrder {
  import opened DynGraph

  // The modules at most d DT_NEEDED edges away from the executable, names in skip left out.
  ghost function FromExec(env: Env, skip: set<string>, d: nat): set<Module> {
    if d == 0 then {env.exec}
    else FromExec(env, skip, d - 1) + TargetsBut(env, skip, FromExec(env, skip, d - 1))
  }

  ghost function TargetsBut(env: Env, skip: set<string>, ms: set<Module>): set<Module> {
    set m, n | m in ms && n in m.needed && n != LIBC && n !in skip && env.Good(n) :: env.Target(n)
  }

  // The names that are not in skip, in their order
  function Without(names: seq<string>, skip: set<string>): seq<string> {
    if names == [] then []
    else Without(names[..|names| - 1], skip) + if names[|names| - 1] in skip then [] else [names[|names| - 1]]
  }

  // The executable's own breadth-first order, libc.so.6 and skip left out: it starts with the
  // executable, everything is in reach of it, and names stand in the order of first mention.
  ghost predicate SearchOrder(env: Env, skip: set<string>, order: seq<Module>) {
    && |order| >= 1 && order[0] == env.exec
    && (forall b :: 1 <= b < |order| ==> env.Good(order[b].name) && order[b] == env.Target(order[b].name))
    && (forall b :: 0 <= b < |order| ==> InReach(env, skip, order[b]))
    && Names(order) == Merge([env.exec.name], Said(order, skip, |order|))
  }

  // What the first i modules want but for skip
  function Said(order: seq<Module>, skip: set<string>, i: nat): seq<string>
    requires i <= |order|
  {
    Without(Mentions(order, i), skip)
  }

  ghost predicate InReach(env: Env, skip: set<string>, m: Module) {
    exists d: nat :: m in FromExec(env, skip, d)
  }

  // ------------------------------------------------------ merging names

  ghost predicate AllDifferent(names: seq<string>) {
    forall p, q :: 0 <= p < q < |names| ==> names[p] != names[q]
  }

  lemma {:induction false} MergeDifferent(start: seq<string>, mentions: seq<string>)
    requires AllDifferent(start)
    ensures AllDifferent(Merge(start, mentions)) && start <= Merge(start, mentions)
    ensures forall n :: n in Merge(start, mentions) <==> n in start || n in mentions
  {
    if mentions != [] {
      MergeDifferent(start, mentions[..|mentions| - 1]);
      assert mentions == mentions[..|mentions| - 1] + [mentions[|mentions| - 1]];
    }
  }

  lemma {:induction false} MergeGrows(start: seq<string>, first: seq<string>, more: seq<string>)
    ensures Merge(start, first) <= Merge(start, first + more)
  {
    if more == [] {
      assert first + more == first;
    } else {
      var all := first + more;
      MergeGrows(start, first, more[..|more| - 1]);
      assert all[..|all| - 1] == first + more[..|more| - 1];
    }
  }

  // A name nobody mentions may stand in front.
  lemma {:induction false} MergeBehind(n: string, start: seq<string>, mentions: seq<string>)
    requires n !in mentions
    ensures Merge([n] + start, mentions) == [n] + Merge(start, mentions)
  {
    if mentions != [] {
      assert mentions[|mentions| - 1] in mentions;
      MergeBehind(n, start, mentions[..|mentions| - 1]);
      var names, c := Merge(start, mentions[..|mentions| - 1]), mentions[|mentions| - 1];
      assert c in [n] + names <==> c in names;
    }
  }

  lemma {:induction false} MentionsPrefix(table: seq<Module>, i: nat, j: nat)
    requires i <= j <= |table|
    ensures Mentions(table, i) <= Mentions(table, j)
  {
    if i < j { MentionsPrefix(table, i, j - 1); }
  }

  lemma {:induction false} MentionsAgree(s: seq<Module>, t: seq<Module>, i: nat)
    requires i <= |s| && i <= |t| && s[..i] == t[..i]
    ensures Mentions(s, i) == Mentions(t, i)
  {
    if i > 0 {
      assert s[..i - 1] == s[..i][..i - 1] == t[..i][..i - 1] == t[..i - 1];
      assert s[i - 1] == s[..i][i - 1] == t[..i][i - 1] == t[i - 1];
      MentionsAgree(s, t, i - 1);
    }
  }

  lemma {:induction false} WantedIs(needed: seq<string>, n: string)
    ensures n in Wanted(needed) <==> n in needed && n != LIBC
  {
    if needed != [] {
      WantedIs(needed[..|needed| - 1], n);
      assert needed == needed[..|needed| - 1] + [needed[|needed| - 1]];
    }
  }

  lemma {:induction false} MentionedBy(table: seq<Module>, i: nat, n: string)
    requires i <= |table|
    ensures n in Mentions(table, i) <==> exists a :: 0 <= a < i && n in table[a].needed && n != LIBC
  {
    if i > 0 {
      MentionedBy(table, i - 1, n);
      WantedIs(table[i - 1].needed, n);
    }
  }

  // ------------------------------------------------------ one order only

  lemma {:induction false} WithoutAppend(a: seq<string>, b: seq<string>, skip: set<string>)
    ensures Without(a + b, skip) == Without(a, skip) + Without(b, skip)
  {
    if b == [] {
      assert a + b == a;
    } else {
      var all := a + b;
      WithoutAppend(a, b[..|b| - 1], skip);
      assert all[..|all| - 1] == a + b[..|b| - 1];
    }
  }

  lemma {:induction false} WithoutIs(names: seq<string>, skip: set<string>, n: string)
    ensures n in Without(names, skip) <==> n in names && n !in skip
    ensures skip == {} ==> Without(names, skip) == names
  {
    if names != [] {
      WithoutIs(names[..|names| - 1], skip, n);
      assert names == names[..|names| - 1] + [names[|names| - 1]];
    }
  }

  // What the first k modules mention, merged, is the beginning of the whole order.
  lemma MergedPrefix(env: Env, skip: set<string>, order: seq<Module>, k: nat)
    requires SearchOrder(env, skip, order) && k <= |order|
    ensures Merge([env.exec.name], Said(order, skip, k)) <= Names(order)
  {
    MentionsPrefix(order, k, |order|);
    var first, all := Mentions(order, k), Mentions(order, |order|);
    WithoutAppend(first, all[|first|..], skip);
    MergeGrows([env.exec.name], Without(first, skip), Without(all[|first|..], skip));
    assert first + all[|first|..] == all;
  }

  lemma ClosedStep(env: Env, skip: set<string>, order: seq<Module>, k: nat, p: Module, n: string)
    requires SearchOrder(env, skip, order) && 1 <= k <= |order| && p in order[..k]
    requires n in p.needed && n != LIBC && n !in skip && env.Good(n)
    requires |Merge([env.exec.name], Said(order, skip, k))| <= k
    ensures env.Target(n) in order[..k]
  {
    var a :| 0 <= a < k && order[a] == p;
    MentionedBy(order, k, n);
    WithoutIs(Mentions(order, k), skip, n);
    MergeDifferent([env.exec.name], Said(order, skip, k));
    MergedPrefix(env, skip, order, k);
    hide Merge, Said, FromExec;
    var names := Merge([env.exec.name], Said(order, skip, k));
    var j :| 0 <= j < |names| && names[j] == n;
    assert names[j] == Names(order)[j] == order[j].name;
    assert order[..k][j] == env.Target(n);
  }

  lemma NewlyInReach(env: Env, skip: set<string>, d: nat, m: Module) returns (p: Module, n: string)
    requires d > 0 && m in FromExec(env, skip, d) && m !in FromExec(env, skip, d - 1)
    ensures p in FromExec(env, skip, d - 1) && n in p.needed && n != LIBC && n !in skip
    ensures env.Good(n) && env.Target(n) == m
  {
    p, n :| p in FromExec(env, skip, d - 1) && n in p.needed && n != LIBC && n !in skip && env.Good(n)
            && env.Target(n) == m;
  }

  // If they mention nothing beyond themselves, nothing else is in reach.
  lemma {:induction false} ClosedReach(env: Env, skip: set<string>, order: seq<Module>, k: nat, d: nat, m: Module)
    requires SearchOrder(env, skip, order) && 1 <= k <= |order| && m in FromExec(env, skip, d)
    requires |Merge([env.exec.name], Said(order, skip, k))| <= k
    ensures m in order[..k]
  {
    hide Merge, Said, Names, FromExec;
    AtTheStart(env);
    if d == 0 {
      assert order[..k][0] == m;
    } else if m in FromExec(env, skip, d - 1) {
      ClosedReach(env, skip, order, k, d - 1, m);
    } else {
      var p, n := NewlyInReach(env, skip, d, m);
      ClosedReach(env, skip, order, k, d - 1, p);
      ClosedStep(env, skip, order, k, p, n);
    }
  }

  lemma NextIsMentioned(env: Env, skip: set<string>, order: seq<Module>, k: nat)
    requires SearchOrder(env, skip, order) && 1 <= k < |order|
    ensures k < |Merge([env.exec.name], Said(order, skip, k))|
  {
    hide Merge, Said, FromExec;
    MergeDifferent([env.exec.name], Said(order, skip, |order|));
    assert forall j :: 0 <= j < k ==> Names(order)[j] != Names(order)[k];
    assert order[k] !in order[..k];
    assert InReach(env, skip, order[k]);
    var d: nat :| order[k] in FromExec(env, skip, d);
    if |Merge([env.exec.name], Said(order, skip, k))| <= k {
      ClosedReach(env, skip, order, k, d, order[k]);
    }
  }

  lemma {:induction false} SamePrefix(env: Env, skip: set<string>, s: seq<Module>, t: seq<Module>, k: nat)
    requires SearchOrder(env, skip, s) && SearchOrder(env, skip, t) && k <= |s|
    ensures k <= |t| && s[..k] == t[..k]
  {
    hide Merge, Mentions, Without, FromExec;
    if k == 1 {
      assert s[..1] == [env.exec] == t[..1];
    } else if k > 1 {
      SamePrefix(env, skip, s, t, k - 1);
      MentionsAgree(s, t, k - 1);
      NextIsMentioned(env, skip, s, k - 1);
      MergedPrefix(env, skip, s, k - 1);
      MergedPrefix(env, skip, t, k - 1);
      var names := Merge([env.exec.name], Said(s, skip, k - 1));
      assert names[k - 1] == Names(s)[k - 1] == Names(t)[k - 1];
      assert s[k - 1].name == t[k - 1].name;
      assert s[..k] == s[..k - 1] + [s[k - 1]] && t[..k] == t[..k - 1] + [t[k - 1]];
    }
  }

  // There is one such order at most.
  lemma SearchOrderUnique(env: Env, skip: set<string>, s: seq<Module>, t: seq<Module>)
    requires SearchOrder(env, skip, s) && SearchOrder(env, skip, t)
    ensures s == t
  {
    hide SearchOrder;
    SamePrefix(env, skip, s, t, |s|);
    SamePrefix(env, skip, t, s, |t|);
    assert s[..|s|] == s && t[..|t|] == t;
  }

  // ------------------------------------------------------ the table of the linker

  // The linker itself needs nothing that is loaded.
  ghost predicate LinkerAlone(env: Env) {
    forall n :: n in env.ld.needed ==> n == LIBC
  }

  lemma {:induction false} WithinIs(env: Env, d: nat)
    requires LinkerAlone(env)
    ensures Within(env, d) == {env.ld} + FromExec(env, {}, d)
  {
    hide Targets, TargetsBut, LinkerAlone;
    if d > 0 {
      WithinIs(env, d - 1);
      LinkerAddsNothing(env, FromExec(env, {}, d - 1));
    }
  }

  lemma LinkerAddsNothing(env: Env, ms: set<Module>)
    requires LinkerAlone(env)
    ensures Targets(env, {env.ld} + ms) == TargetsBut(env, {}, ms)
  {}

  lemma {:induction false} MentionsBehind(table: seq<Module>, i: nat)
    requires 1 <= i <= |table| && Wanted(table[0].needed) == []
    ensures Mentions(table, i) == Mentions(table[1..], i - 1)
  {
    if i == 1 {
      assert Mentions(table, 0) == [];
    } else {
      MentionsBehind(table, i - 1);
      assert table[1..][i - 2] == table[i - 1];
    }
  }

  lemma NobodyWantsTheLinker(env: Env, table: seq<Module>, depth: seq<nat>)
    requires Resolving(env, table, depth, |table|, 0)
    ensures env.ld.name !in Mentions(table, |table|)
  {
    hide Merge, Within;
    MentionedBy(table, |table|, env.ld.name);
    forall a, n | 0 <= a < |table| && n in table[a].needed && n != LIBC
      ensures n != env.ld.name
    {
      var c :| 0 <= c < |table[a].needed| && table[a].needed[c] == n;
      assert Served(env, table, depth, a, table[a].needed[c]);
    }
  }

  // Behind the linker, which takes slot 0, its table is the executable's own order.
  lemma TableIsSearchOrder(env: Env, table: seq<Module>, depth: seq<nat>)
    requires Resolving(env, table, depth, |table|, 0) && LinkerAlone(env)
    ensures SearchOrder(env, {}, table[1..])
  {
    hide Mentions, Wanted, FromExec, Within, Merge, Without;
    var order := table[1..];
    WithoutIs(Mentions(order, |order|), {}, env.ld.name);
    NoWants(env);
    MentionsBehind(table, |table|);
    NobodyWantsTheLinker(env, table, depth);
    FinishedOrder(env, table, depth);
    MergeBehind(env.ld.name, [env.exec.name], Mentions(table, |table|));
    assert [env.ld.name, env.exec.name] == [env.ld.name] + [env.exec.name];
    assert Names(order) == Names(table)[1..];
    forall b | 0 <= b < |order|
      ensures InReach(env, {}, order[b])
    {
      WithinIs(env, depth[b + 1]);
      AtTheStart(env);
      assert table[b + 1] in Within(env, depth[b + 1]);
      assert order[b] in FromExec(env, {}, depth[b + 1]);
    }
  }

  lemma NoWants(env: Env)
    requires LinkerAlone(env)
    ensures Wanted(env.ld.needed) == []
  {
    var w := Wanted(env.ld.needed);
    if w != [] { WantedIs(env.ld.needed, w[0]); }
  }

  lemma AtTheStart(env: Env)
    ensures Within(env, 0) == {env.ld, env.exec} && forall skip :: FromExec(env, skip, 0) == {env.exec}
  {}

  // ------------------------------------------------------ any linker

  // Names closed under needs: the linker's among them, the executable's not.
  ghost predicate Shut(env: Env, skip: set<string>) {
    && env.ld.name in skip && env.exec.name !in skip
    && (forall n :: n in env.ld.needed && n != LIBC ==> n in skip)
    && (forall m, n :: m in skip && env.Good(m) && n in env.Target(m).needed && n != LIBC ==> n in skip)
  }

  // The modules with other names, in their order
  function Outside(ms: seq<Module>, skip: set<string>): (r: seq<Module>)
    ensures forall m :: m in r <==> m in ms && m.name !in skip
  {
    if ms == [] then []
    else
      assert ms == ms[..|ms| - 1] + [ms[|ms| - 1]];
      Outside(ms[..|ms| - 1], skip) + if ms[|ms| - 1].name in skip then [] else [ms[|ms| - 1]]
  }

  lemma {:induction false} NamesOutside(ms: seq<Module>, skip: set<string>)
    ensures Names(Outside(ms, skip)) == Without(Names(ms), skip)
  {
    if ms == [] {
      assert Names(ms) == [];
    } else {
      var first := ms[..|ms| - 1];
      NamesOutside(first, skip);
      assert Names(ms)[..|ms| - 1] == Names(first);
      if ms[|ms| - 1].name !in skip {
        assert Names(Outside(ms, skip)) == Names(Outside(first, skip)) + [ms[|ms| - 1].name];
      }
    }
  }

  lemma WithoutOneMore(names: seq<string>, n: string, skip: set<string>)
    ensures Without(names + [n], skip) == Without(names, skip) + if n in skip then [] else [n]
  {
    assert (names + [n])[..|names|] == names;
  }

  lemma MergeOneMore(start: seq<string>, mentions: seq<string>, n: string)
    ensures
      var names := Merge(start, mentions);
      Merge(start, mentions + [n]) == if n in names then names else names + [n]
  {
    assert (mentions + [n])[..|mentions|] == mentions;
  }

  lemma {:induction false} WithoutMerge(start: seq<string>, mentions: seq<string>, skip: set<string>)
    ensures Without(Merge(start, mentions), skip) == Merge(Without(start, skip), Without(mentions, skip))
  {
    hide Merge, Without;
    if mentions == [] {
      MergeNothing(start, skip);
    } else {
      var first, n := mentions[..|mentions| - 1], mentions[|mentions| - 1];
      assert mentions == first + [n];
      WithoutMerge(start, first, skip);
      var names := Merge(start, first);
      MergeOneMore(start, first, n);
      MergeOneMore(Without(start, skip), Without(first, skip), n);
      WithoutIs(names, skip, n);
      WithoutOneMore(names, n, skip);
      WithoutOneMore(first, n, skip);
      assert Without(first, skip) + [] == Without(first, skip);
      assert Without(names, skip) + [] == Without(names, skip);
    }
  }

  lemma MergeNothing(start: seq<string>, skip: set<string>)
    ensures Without([], skip) == [] && Merge(start, []) == start
    ensures Merge(Without(start, skip), []) == Without(start, skip)
  {}

  // Of these modules, those in skip mention nothing else.
  ghost predicate Inward(ms: seq<Module>, skip: set<string>) {
    forall m, n :: m in ms && m.name in skip && n in m.needed && n != LIBC ==> n in skip
  }

  lemma OutsideOneMore(ms: seq<Module>, m: Module, skip: set<string>)
    ensures Outside(ms + [m], skip) == Outside(ms, skip) + if m.name in skip then [] else [m]
  {
    assert (ms + [m])[..|ms|] == ms;
  }

  lemma SaidOneMore(ms: seq<Module>, m: Module, skip: set<string>)
    ensures Said(ms + [m], skip, |ms| + 1) == Said(ms, skip, |ms|) + Without(Wanted(m.needed), skip)
  {
    MentionsGrow(ms, m, |ms|);
    assert (ms + [m])[|ms|] == m;
    WithoutAppend(Mentions(ms, |ms|), Wanted(m.needed), skip);
  }

  lemma {:induction false} SaidOutside(ms: seq<Module>, skip: set<string>)
    requires Inward(ms, skip)
    ensures Said(Outside(ms, skip), skip, |Outside(ms, skip)|) == Said(ms, skip, |ms|)
  {
    if ms == [] {
      assert Outside(ms, skip) == ms;
    } else {
      var first, m := ms[..|ms| - 1], ms[|ms| - 1];
      assert ms == first + [m];
      SaidOutside(first, skip);
      hide Said, Outside, Wanted, Without;
      SaidOneMore(first, m, skip);
      OutsideOneMore(first, m, skip);
      if m.name in skip {
        NothingLeft(m.needed, skip);
        assert Outside(first, skip) + [] == Outside(first, skip);
        assert Said(first, skip, |first|) + [] == Said(first, skip, |first|);
      } else {
        SaidOneMore(Outside(first, skip), m, skip);
      }
    }
  }

  lemma NothingLeft(needed: seq<string>, skip: set<string>)
    requires forall n :: n in needed && n != LIBC ==> n in skip
    ensures Without(Wanted(needed), skip) == []
  {
    var left := Without(Wanted(needed), skip);
    if left != [] {
      WithoutIs(Wanted(needed), skip, left[0]);
      WantedIs(needed, left[0]);
    }
  }

  // What names mean: everything in reach is a starting module or the one its name stands for.
  lemma {:induction false} WithinNamed(env: Env, d: nat, m: Module)
    requires m in Within(env, d)
    ensures m == env.ld || m == env.exec || (env.Good(m.name) && m == env.Target(m.name))
  {
    if d > 0 && m !in Within(env, d - 1) {
      assert m in Targets(env, Within(env, d - 1));
    } else if d > 0 {
      WithinNamed(env, d - 1, m);
    }
  }

  // What is in reach but not in skip is in reach of the executable without skip.
  lemma {:induction false} PathOutside(env: Env, skip: set<string>, d: nat, m: Module)
    requires Shut(env, skip) && m in Within(env, d) && m.name !in skip
    ensures m in FromExec(env, skip, d)
  {
    hide Within, FromExec;
    AtTheStart(env);
    if d > 0 {
      if m in Within(env, d - 1) {
        PathOutside(env, skip, d - 1, m);
        FromExecGrows(env, skip, d);
      } else {
        var p, n := WithinStep(env, d, m);
        WithinNamed(env, d - 1, p);
        NeedOutside(env, skip, p, n);
        PathOutside(env, skip, d - 1, p);
        FromExecStep(env, skip, d, p, n);
      }
    }
  }

  // A module that needs a name outside skip is outside itself.
  lemma NeedOutside(env: Env, skip: set<string>, p: Module, n: string)
    requires Shut(env, skip) && n in p.needed && n != LIBC && env.Good(n) && env.Target(n).name !in skip
    requires p == env.ld || p == env.exec || (env.Good(p.name) && p == env.Target(p.name))
    ensures p.name !in skip && n !in skip
  {
    assert env.Target(n).name == n;
  }

  lemma FromExecGrows(env: Env, skip: set<string>, d: nat)
    requires d > 0
    ensures FromExec(env, skip, d - 1) <= FromExec(env, skip, d)
  {}

  lemma WithinStep(env: Env, d: nat, m: Module) returns (p: Module, n: string)
    requires d > 0 && m in Within(env, d) && m !in Within(env, d - 1)
    ensures p in Within(env, d - 1) && n in p.needed && n != LIBC && env.Good(n) && env.Target(n) == m
  {
    p, n :| p in Within(env, d - 1) && n in p.needed && n != LIBC && env.Good(n) && env.Target(n) == m;
  }

  lemma FromExecStep(env: Env, skip: set<string>, d: nat, p: Module, n: string)
    requires d > 0 && p in FromExec(env, skip, d - 1) && n in p.needed && n != LIBC && n !in skip && env.Good(n)
    ensures env.Target(n) in FromExec(env, skip, d)
  {}

  lemma {:induction false} FromExecWithin(env: Env, d: nat)
    ensures FromExec(env, {}, d) <= Within(env, d)
  {
    if d > 0 { FromExecWithin(env, d - 1); }
  }

  // A list of modules in reach, in order of first mention from the executable or from both,
  // becomes the executable's order without skip when skip is taken out.
  lemma OutsideIsOrder(env: Env, skip: set<string>, ms: seq<Module>, start: seq<string>)
    requires Shut(env, skip) && Without(start, skip) == [env.exec.name]
    requires Names(ms) == Merge(start, Mentions(ms, |ms|))
    requires forall m :: m in ms ==> WithinReach(env, m)
    requires forall m :: m in ms && m.name == env.exec.name ==> m == env.exec
    ensures SearchOrder(env, skip, Outside(ms, skip))
  {
    hide Mentions, Merge, Without, Within, FromExec;
    var out := Outside(ms, skip);
    forall m | m in ms
      ensures m.name in skip ==> m == env.ld || (env.Good(m.name) && m == env.Target(m.name))
      ensures m.name !in skip ==> InReach(env, skip, m)
      ensures m == env.ld || m == env.exec || (env.Good(m.name) && m == env.Target(m.name))
    {
      assert WithinReach(env, m);
      var d: nat :| m in Within(env, d);
      WithinNamed(env, d, m);
      if m.name !in skip { PathOutside(env, skip, d, m); }
    }
    assert Inward(ms, skip);
    NamesOutside(ms, skip);
    WithoutMerge(start, Mentions(ms, |ms|), skip);
    SaidOutside(ms, skip);
    MergeDifferent([env.exec.name], Said(ms, skip, |ms|));
    assert Names(out)[0] == env.exec.name == out[0].name && out[0] in out;
    forall b | 1 <= b < |out|
      ensures env.Good(out[b].name) && out[b] == env.Target(out[b].name)
    {
      assert Names(out)[b] != Names(out)[0] && out[b] in out;
    }
    assert forall b :: 0 <= b < |out| ==> out[b] in out;
  }

  ghost predicate WithinReach(env: Env, m: Module) {
    exists d: nat :: m in Within(env, d)
  }

  // So the linker's table and the executable's order agree but for skip.
  lemma AgreeOutside(env: Env, table: seq<Module>, depth: seq<nat>, order: seq<Module>, skip: set<string>)
    requires Resolving(env, table, depth, |table|, 0) && SearchOrder(env, {}, order) && Shut(env, skip)
    ensures Outside(table, skip) == Outside(order, skip)
  {
    TableOutside(env, table, depth, skip);
    OrderOutside(env, order, skip);
    SearchOrderUnique(env, skip, Outside(table, skip), Outside(order, skip));
  }

  lemma TableOutside(env: Env, table: seq<Module>, depth: seq<nat>, skip: set<string>)
    requires Resolving(env, table, depth, |table|, 0) && Shut(env, skip)
    ensures SearchOrder(env, skip, Outside(table, skip))
  {
    hide Mentions, Merge, Within, Wanted, SearchOrder;
    FinishedOrder(env, table, depth);
    var start := [env.ld.name, env.exec.name];
    WithoutOneMore([env.ld.name], env.exec.name, skip);
    WithoutOneMore([], env.ld.name, skip);
    assert start == [env.ld.name] + [env.exec.name] && [] + [env.ld.name] == [env.ld.name];
    forall m | m in table
      ensures WithinReach(env, m) && (m.name == env.exec.name ==> m == env.exec)
    {
      var b :| 0 <= b < |table| && table[b] == m;
      assert table[b] in Within(env, depth[b]);
    }
    OutsideIsOrder(env, skip, table, start);
  }

  lemma OrderOutside(env: Env, order: seq<Module>, skip: set<string>)
    requires SearchOrder(env, {}, order) && Shut(env, skip)
    ensures SearchOrder(env, skip, Outside(order, skip))
  {
    WithoutIs(Mentions(order, |order|), {}, env.exec.name);
    MergeDifferent([env.exec.name], Mentions(order, |order|));
    hide Mentions, Merge, FromExec, Within;
    var start := [env.exec.name];
    assert Without(start, skip) == start by { assert start[..0] == []; }
    forall m | m in order
      ensures WithinReach(env, m) && (m.name == env.exec.name ==> m == env.exec)
    {
      var b :| 0 <= b < |order| && order[b] == m;
      assert InReach(env, {}, order[b]);
      var d: nat :| order[b] in FromExec(env, {}, d);
      FromExecWithin(env, d);
      assert b > 0 ==> Names(order)[b] != Names(order)[0];
    }
    OutsideIsOrder(env, skip, order, start);
  }
}
