// lsh/lua/src/lcode.c: the code generator's operations on jump lists, and the
// plain picture they implement: every label has a set of jumps waiting for it,
// and every jump whose label has been placed goes there for good.
module JumpPatching {
  import opened JumpLists
  import opened Lists

  // goal extended by the jumps js: each now has its destination.
  ghost function Assign(goal: map<int, int>, code: Code, js: seq<int>, vtarget: int, dtarget: int): (r: map<int, int>)
    ensures forall j :: j in r <==> j in goal || j in js
    ensures forall j :: j in r ==> r[j] == if j in js then Target(code, j, vtarget, dtarget) else goal[j]
    decreases |js|
  {
    if js == [] then goal
    else Assign(goal[js[0] := Target(code, js[0], vtarget, dtarget)], code, js[1..], vtarget, dtarget)
  }

  lemma PatchedKeeps(code: Code, code': Code, js: seq<int>, vtarget: int, reg: int, dtarget: int, j: int)
    requires Patched(code, code', js, vtarget, reg, dtarget) && IsJump(code, j)
    ensures j !in js ==> code'[j] == code[j]
    ensures j in js ==> IsJump(code', j) && Dest(code', j) == Target(code, j, vtarget, dtarget)
  {}

  lemma PatchedList(code: Code, code': Code, js: seq<int>, vtarget: int, reg: int, dtarget: int,
                    head: int, ls: seq<int>)
    requires Patched(code, code', js, vtarget, reg, dtarget) && IsList(code, head, ls)
    requires forall j :: j in ls ==> j !in js
    ensures IsList(code', head, ls)
  {
    ListDistinct(code, head, ls);
    forall j | j in ls
      ensures code'[j] == code[j]
    {
      PatchedKeeps(code, code', js, vtarget, reg, dtarget, j);
    }
    ListFrame(code, code', head, ls);
  }

  // Every jump of js can reach its destination.
  ghost predicate AllFit(code: Code, js: seq<int>, vtarget: int, dtarget: int) {
    forall j :: j in js ==> Fits(j, Target(code, j, vtarget, dtarget))
  }

  // Jumps behind a TESTSET go to vtarget, the others to dtarget.
  lemma PatchedLands(code: Code, code': Code, js: seq<int>, vtarget: int, reg: int, dtarget: int)
    requires Patched(code, code', js, vtarget, reg, dtarget) && forall j :: j in js ==> IsJump(code, j)
    ensures forall j :: j in js ==>
      && IsJump(code', j)
      && j + 1 + code'[j].sbx ==
         if j >= 1 && code[j - 1].ABC? && code[j - 1].op == OP_TESTSET then vtarget else dtarget
  {}

  // The last jump of js1 can reach the head of the list js2, if there are both.
  predicate Linkable(js1: seq<int>, head2: int, js2: seq<int>) {
    js1 == [] || js2 == [] || Fits(js1[|js1| - 1], head2)
  }

  class FuncState {
    var code: Code
    var jpc: int
    var lasttarget: int
    ghost var here: seq<int>            // the jumps waiting for the next instruction
    ghost var held: map<int, seq<int>>  // label -> the jumps waiting for it
    ghost var head: map<int, int>       // label -> the list head its owner keeps
    ghost var goal: map<int, int>       // jump -> destination, once its label is placed

    // No jump waits for two things at once.
    ghost predicate Apart()
      reads this`here, this`held, this`goal
    {
      && (forall l, j :: l in held && j in held[l] ==> j !in here && j !in goal)
      && (forall l, m, j :: l in held && m in held && l != m && j in held[l] ==> j !in held[m])
      && (forall j :: j in here ==> j !in goal)
    }

    ghost predicate Valid()
      reads this
    {
      IsList(code, jpc, here) && AllLists(code, head, held) && Apart() && Reached(code, goal)
    }

    constructor ()
      ensures Valid() && code == [] && held == map[] && here == [] && goal == map[]
    {
      code, jpc, lasttarget := [], NO_JUMP, 0;
      here, held, head, goal := [], map[], map[], map[];
    }

    // ------------------------------------------------------ fixing one jump

    // fixjump; a distance that does not fit, where the source raises a syntax error, is false.
    method FixJump(p: int, dest: int) returns (ok: bool)
      requires IsJump(code, p) && dest != NO_JUMP
      modifies this`code
      ensures ok <==> -131071 <= dest - (p + 1) <= 131071
      ensures code == if ok then old(code)[p := old(code)[p].(sbx := dest - (p + 1))] else old(code)
    {
      var offset := dest - (p + 1);
      if (if offset < 0 then -offset else offset) > MAXARG_SBX { return false; }
      code := code[p := code[p].(sbx := offset)];
      ok := true;
    }

    // patchtestreg, with getjumpcontrol
    method PatchTestReg(node: int, reg: int) returns (patched: bool)
      requires IsJump(code, node)
      modifies this`code
      ensures patched <==> ProducesValue(old(code), node)
      ensures code == if patched then old(code)[node - 1 := Retarget(old(code)[node - 1], reg)] else old(code)
    {
      var i := if node >= 1 && IsTest(code[node - 1]) then node - 1 else node;
      if code[i].AsBx? || code[i].op != OP_TESTSET { return false; }
      if reg != NO_REG && reg != code[i].b {
        code := code[i := code[i].(a := reg)];
      } else {
        code := code[i := ABC(OP_TEST, code[i].b, 0, code[i].c)];
      }
      patched := true;
    }

    // One round of patchlistaux.
    method PatchOne(p: int, vtarget: int, reg: int, dtarget: int) returns (ok: bool)
      requires IsJump(code, p) && vtarget != NO_JUMP && dtarget != NO_JUMP
      modifies this`code
      ensures ok <==> Fits(p, Target(old(code), p, vtarget, dtarget))
      ensures ok ==> OnePatched(old(code), code, p, vtarget, reg, dtarget)
    {
      var value := PatchTestReg(p, reg);
      ok := FixJump(p, if value then vtarget else dtarget);
    }

    // patchlistaux
    method PatchListAux(first: int, vtarget: int, reg: int, dtarget: int, ghost js: seq<int>) returns (ok: bool)
      requires IsList(code, first, js) && vtarget != NO_JUMP && dtarget != NO_JUMP
      modifies this`code
      ensures ok <==> AllFit(old(code), js, vtarget, dtarget)
      ensures ok ==> Patched(old(code), code, js, vtarget, reg, dtarget)
      ensures ok ==> forall j :: j in js ==>
        && IsJump(code, j)
        && j + 1 + code[j].sbx ==
           if j >= 1 && old(code)[j - 1].ABC? && old(code)[j - 1].op == OP_TESTSET then vtarget else dtarget
    {
      hide Patched, OnePatched, ProducesValue;
      var list := first;
      ghost var c, k := code, 0;
      ListDistinct(c, first, js);
      NonePatched(c, vtarget, reg, dtarget);
      while list != NO_JUMP
        invariant 0 <= k <= |js|
        invariant list == if k < |js| then js[k] else NO_JUMP
        invariant Patched(c, code, js[..k], vtarget, reg, dtarget)
        invariant forall j :: j in js[..k] ==> Fits(j, Target(c, j, vtarget, dtarget))
        decreases |js| - k
      {
        ListSuffix(c, first, js, k);
        PatchStep(c, code, js, k, vtarget, reg, dtarget);
        ghost var before := code;
        var next := GetJump(code, list);
        var fixed := PatchOne(list, vtarget, reg, dtarget);
        assert js[k] in js;
        if !fixed { return false; }
        PatchedOneMore(c, before, code, js, k, vtarget, reg, dtarget);
        list := next;
        k := k + 1;
      }
      assert k < |js| ==> js[k] in js && IsJump(c, js[k]);
      assert js[..k] == js;
      PatchedLands(c, code, js, vtarget, reg, dtarget);
      ok := true;
    }

    // luaK_concat: list2 goes behind list1.
    method Concat(list1: int, list2: int, ghost js1: seq<int>, ghost js2: seq<int>) returns (ok: bool, list: int)
      requires IsList(code, list1, js1) && IsList(code, list2, js2)
      requires forall j :: j in js1 ==> j !in js2
      modifies this`code
      ensures ok <==> Linkable(js1, list2, js2)
      ensures ok ==> IsList(code, list, js1 + js2) && |code| == |old(code)|
      ensures ok ==> OnlyLastLinked(old(code), code, js1)
      ensures ok && js1 != [] ==> list == list1
    {
      ListHead(code, list1, js1);
      ListHead(code, list2, js2);
      if list2 == NO_JUMP {
        assert js1 + js2 == js1;
        return true, list1;
      }
      if list1 == NO_JUMP {
        assert js1 + js2 == js2;
        return true, list2;
      }
      var last := list1;
      ghost var k := 0;
      ListDistinct(code, list1, js1);
      forall i | 0 <= i < |js1|
        ensures js1[i] != NO_JUMP
      {
        assert js1[i] in js1;
      }
      ListSuffix(code, list1, js1, 0);
      while GetJump(code, last) != NO_JUMP
        invariant code == old(code)
        invariant 0 <= k < |js1| && last == js1[k] && IsJump(code, last)
        invariant GetJump(code, last) == if k + 1 < |js1| then js1[k + 1] else NO_JUMP
        decreases |js1| - k
      {
        ListSuffix(code, list1, js1, k + 1);
        last := GetJump(code, last);
        k := k + 1;
      }
      ok := FixJump(last, list2);
      list := list1;
      if ok {
        ConcatLists(old(code), code, list1, list2, js1, js2);
      }
    }

    // luaK_concat on two labels: from now on label l also stands for label m.
    method ConcatLabels(list1: int, list2: int, ghost l: int, ghost m: int) returns (ok: bool, list: int)
      requires Valid() && l in held && m in held && l != m && head[l] == list1 && head[m] == list2
      modifies this`code, this`head, this`held
      ensures ok <==> Linkable(old(held)[l], list2, old(held)[m])
      ensures ok ==> Valid() && |code| == |old(code)| && here == old(here) && goal == old(goal)
      ensures ok ==> held == old(held)[l := old(held)[l] + old(held)[m]] - {m} && head[l] == list
      ensures ok ==> OnlyLastLinked(old(code), code, old(held)[l])
    {
      ghost var js1, js2 := held[l], held[m];
      ok, list := Concat(list1, list2, js1, js2);
      if ok {
        held := held[l := js1 + js2] - {m};
        head := head[l := list] - {m};
        OthersThreaded(js1);
      }
    }

    // patchlistaux on a label: its jumps go to vtarget or dtarget from now on.
    method Resolve(list: int, vtarget: int, reg: int, dtarget: int, ghost l: int) returns (ok: bool)
      requires Valid() && l in held && head[l] == list && vtarget != NO_JUMP && dtarget != NO_JUMP
      modifies this`code, this`head, this`held, this`goal
      ensures ok <==> AllFit(old(code), old(held)[l], vtarget, dtarget)
      ensures ok ==> Valid() && here == old(here) && held == old(held) - {l}
      ensures ok ==> Patched(old(code), code, old(held)[l], vtarget, reg, dtarget)
      ensures ok ==> goal == Assign(old(goal), old(code), old(held)[l], vtarget, dtarget)
      ensures ok ==> forall j :: j in old(held)[l] ==>
        && j in goal && 0 <= j < |old(code)|
        && goal[j] == if j >= 1 && old(code)[j - 1].ABC? && old(code)[j - 1].op == OP_TESTSET then vtarget else dtarget
    {
      ghost var js, c := held[l], code;
      ListDistinct(code, list, js);
      ok := PatchListAux(list, vtarget, reg, dtarget, js);
      if ok {
        AfterPatch(c, code, js, vtarget, reg, dtarget, goal);
        ListsAfterPatch(c, code, js, vtarget, reg, dtarget, head, held);
        PatchedList(c, code, js, vtarget, reg, dtarget, jpc, here);
        goal := Assign(goal, c, js, vtarget, dtarget);
        held := held - {l};
        head := head - {l};
      }
    }

    // dischargejpc
    method Discharge() returns (ok: bool)
      requires Valid()
      modifies this`code, this`jpc, this`here, this`goal
      ensures ok <==> AllFit(old(code), old(here), |old(code)|, |old(code)|)
      ensures ok ==> Valid() && here == [] && jpc == NO_JUMP
      ensures ok ==> Patched(old(code), code, old(here), |old(code)|, NO_REG, |old(code)|)
      ensures ok ==> goal == Assign(old(goal), old(code), old(here), |old(code)|, |old(code)|)
    {
      ghost var js, c := here, code;
      ListDistinct(code, jpc, js);
      var pc := |code|;
      ok := PatchListAux(jpc, pc, NO_REG, pc, js);
      if ok {
        AfterPatch(c, code, js, pc, NO_REG, pc, goal);
        ListsAfterPatch(c, code, js, pc, NO_REG, pc, head, held);
        goal := Assign(goal, c, js, pc, pc);
        jpc, here := NO_JUMP, [];
      }
    }

    // luaK_code: every jump pending to "here" goes to the new instruction.
    method Emit(i: Instr) returns (ok: bool, pc: int)
      requires Valid()
      modifies this`code, this`jpc, this`here, this`goal
      ensures ok <==> AllFit(old(code), old(here), |old(code)|, |old(code)|)
      ensures ok ==> Valid() && here == [] && pc == |old(code)| && |code| == pc + 1 && code[pc] == i
      ensures ok ==> Patched(old(code), code[..pc], old(here), pc, NO_REG, pc)
      ensures ok ==> goal == Assign(old(goal), old(code), old(here), pc, pc)
    {
      pc := |code|;
      ok := Discharge();
      if ok {
        ghost var was := code;
        code := code + [i];
        assert code[..pc] == was;
        forall l | l in held
          ensures IsList(code, head[l], held[l])
        {
          ListFrame(was, code, head[l], held[l]);
        }
      }
    }

    // luaK_patchtohere: label l stands for "the next instruction" from now on.
    method PatchToHere(list: int, ghost l: int) returns (ok: bool)
      requires Valid() && l in held && head[l] == list
      modifies this`code, this`jpc, this`lasttarget, this`head, this`held, this`here
      ensures ok <==> Linkable(old(here), list, old(held)[l])
      ensures ok ==> Valid() && |code| == |old(code)| && goal == old(goal) && lasttarget == |code|
      ensures ok ==> here == old(here) + old(held)[l] && held == old(held) - {l}
      ensures ok ==> OnlyLastLinked(old(code), code, old(here))
    {
      hide IsList, OnlyLastLinked, Reached;
      lasttarget := |code|;
      ghost var js := held[l];
      ghost var js1 := here;
      var list1;
      ok, list1 := Concat(jpc, list, js1, js);
      if ok {
        OthersThreaded(js1);
        SameLength(old(code), code, js1);
        jpc := list1;
        here := js1 + js;
        held := held - {l};
        head := head - {l};
      }
    }

    // luaK_patchlist
    method PatchList(list: int, target: int, ghost l: int) returns (ok: bool)
      requires Valid() && l in held && head[l] == list && 0 <= target <= |code|
      modifies this
      ensures ok <==> if target == |old(code)| then Linkable(old(here), list, old(held)[l])
                      else AllFit(old(code), old(held)[l], target, target)
      ensures ok ==> Valid() && |code| == |old(code)| && held == old(held) - {l}
      ensures ok ==> lasttarget == if target == |old(code)| then |code| else old(lasttarget)
      ensures ok && target == |old(code)| ==>
        here == old(here) + old(held)[l] && goal == old(goal) && OnlyLastLinked(old(code), code, old(here))
      ensures ok && target < |old(code)| ==>
        && here == old(here) && goal == Assign(old(goal), old(code), old(held)[l], target, target)
        && Patched(old(code), code, old(held)[l], target, NO_REG, target)
    {
      if target == |code| {
        ok := PatchToHere(list, l);
      } else {
        ok := Resolve(list, target, NO_REG, target, l);
      }
    }

    // luaK_jump: the new jump's label also takes over the jumps pending to "here",
    // so that they follow the new jump to wherever it will go.
    method Jump(ghost l: int) returns (ok: bool, j: int)
      requires Valid() && l !in held
      modifies this`code, this`jpc, this`here, this`head, this`held
      ensures ok <==> Linkable([|old(code)|], old(jpc), old(here))
      ensures ok ==> Valid() && here == [] && goal == old(goal) && |code| == |old(code)| + 1
      ensures ok ==> held == old(held)[l := [|old(code)|] + old(here)] && head[l] == j
      ensures ok ==> code[..|old(code)|] == old(code)
    {
      hide IsList, Fits;
      var pending := jpc;
      ghost var js, c := here, code;
      var pc := |code|;
      code := code + [AsBx(OP_JMP, 0, NO_JUMP)];
      OneJump(code, pc);
      ListFrame(c, code, pending, js);
      ListDistinct(c, pending, js);
      ok, j := Concat(pc, pending, [pc], js);
      if ok {
        forall x | x in held
          ensures IsList(code, head[x], held[x])
        {
          ListDistinct(c, head[x], held[x]);
          ListFrame(c, code, head[x], held[x]);
        }
        forall x, k | x in held && k in held[x]
          ensures k != pc
        {
          ListDistinct(c, head[x], held[x]);
        }
        NoJumps(code);
        jpc, here := NO_JUMP, [];
        held := held[l := [pc] + js];
        head := head[l := j];
      }
    }

    // A change confined to jumps of js leaves every list without those jumps alone.
    twostate lemma OthersThreaded(js: seq<int>)
      requires old(Valid()) && OnlyLastLinked(old(code), code, js)
      ensures Misses(js, old(here)) ==> IsList(code, old(jpc), old(here))
      ensures forall x :: x in old(held) && Misses(js, old(held)[x]) ==> IsList(code, old(head)[x], old(held)[x])
      ensures (forall j :: j in old(goal) ==> j !in js) ==> Reached(code, old(goal))
    {
      LastIn(js);
      if Misses(js, old(here)) {
        ListFrame(old(code), code, old(jpc), old(here));
      }
      forall x | x in old(held) && Misses(js, old(held)[x])
        ensures IsList(code, old(head)[x], old(held)[x])
      {
        ListFrame(old(code), code, old(head)[x], old(held)[x]);
      }
    }
  }

  // Nothing but the distance of the last of these jumps has changed.
  ghost predicate OnlyLastLinked(was: Code, now: Code, js: seq<int>) {
    |now| == |was| && forall p :: 0 <= p < |was| && (js == [] || p != js[|js| - 1]) ==> now[p] == was[p]
  }

  ghost predicate Misses(js: seq<int>, ls: seq<int>) {
    forall j :: j in ls ==> j !in js
  }

  // The heads the labels' owners keep are those of the labels' chains.
  ghost predicate AllLists(code: Code, head: map<int, int>, held: map<int, seq<int>>) {
    && head.Keys == held.Keys
    && forall l :: l in held ==> IsList(code, head[l], held[l])
  }

  ghost predicate AreJumps(code: Code, js: seq<int>) {
    forall j :: j in js ==> IsJump(code, j)
  }

  ghost predicate Unsettled(goal: map<int, int>, js: seq<int>) {
    forall j :: j in js ==> j !in goal
  }

  // Every jump with a known destination goes there.
  ghost predicate Reached(code: Code, goal: map<int, int>) {
    forall j :: j in goal ==> IsJump(code, j) && Dest(code, j) == goal[j]
  }

  // The jumps js get their destinations; everything else keeps waiting or stays settled.
  lemma AfterPatch(c: Code, c': Code, js: seq<int>, vtarget: int, reg: int, dtarget: int, goal: map<int, int>)
    requires Patched(c, c', js, vtarget, reg, dtarget) && Reached(c, goal)
    requires AreJumps(c, js) && Unsettled(goal, js)
    ensures Reached(c', Assign(goal, c, js, vtarget, dtarget))
  {
    var goal' := Assign(goal, c, js, vtarget, dtarget);
    forall j | j in goal'
      ensures IsJump(c', j) && Dest(c', j) == goal'[j]
    {
      PatchedKeeps(c, c', js, vtarget, reg, dtarget, j);
    }
  }

  lemma ListsAfterPatch(c: Code, c': Code, js: seq<int>, vtarget: int, reg: int, dtarget: int,
                        head: map<int, int>, held: map<int, seq<int>>)
    requires Patched(c, c', js, vtarget, reg, dtarget) && AllLists(c, head, held)
    ensures forall x :: x in held && Misses(js, held[x]) ==> IsList(c', head[x], held[x])
  {
    forall x | x in held && Misses(js, held[x])
      ensures IsList(c', head[x], held[x])
    {
      PatchedList(c, c', js, vtarget, reg, dtarget, head[x], held[x]);
    }
  }

  lemma SameLength(was: Code, now: Code, js: seq<int>)
    requires OnlyLastLinked(was, now, js)
    ensures |now| == |was|
  {}

  lemma NoJumps(code: Code)
    ensures IsList(code, NO_JUMP, [])
  {}

  lemma OneJump(code: Code, p: int)
    requires IsJump(code, p) && GetJump(code, p) == NO_JUMP
    ensures IsList(code, p, [p])
  {}

  lemma LastIn(js: seq<int>)
    ensures js != [] ==> js[|js| - 1] in js
  {}

  lemma ListHead(code: Code, head: int, js: seq<int>)
    requires IsList(code, head, js)
    ensures head == NO_JUMP <==> js == []
    ensures js != [] ==> head == js[0]
  {}

  lemma ConcatLists(code: Code, code': Code, list1: int, list2: int, js1: seq<int>, js2: seq<int>)
    requires IsList(code, list1, js1) && IsList(code, list2, js2) && js1 != [] && js2 != []
    requires forall j :: j in js1 ==> j !in js2
    requires IsJump(code, js1[|js1| - 1]) && list2 != NO_JUMP
    requires
      var last := js1[|js1| - 1];
      code' == code[last := code[last].(sbx := list2 - (last + 1))]
    ensures IsList(code', list1, js1 + js2)
  {
    var last := js1[|js1| - 1];
    ListDistinct(code, list1, js1);
    ListDistinct(code, list2, js2);
    LastIn(js1);
    ListFrame(code, code', list2, js2);
    var front := js1[..|js1| - 1];
    assert forall i :: 0 <= i < |front| ==> front[i] == js1[i] != last;
    assert js2[0] in js2 && last in js1;
    ListAppend(code, list1, js1, js2, code', list2);
  }

  // The next jump of the chain, and its test, are still as they were.
  lemma PatchStep(c: Code, now: Code, js: seq<int>, k: int, vtarget: int, reg: int, dtarget: int)
    requires 0 <= k < |js| && Distinct(js) && IsJump(c, js[k])
    requires Patched(c, now, js[..k], vtarget, reg, dtarget)
    ensures IsJump(now, js[k]) && now[js[k]] == c[js[k]]
    ensures ProducesValue(now, js[k]) == ProducesValue(c, js[k])
    ensures ProducesValue(c, js[k]) ==> now[js[k] - 1] == c[js[k] - 1]
  {
    assert js[k] !in js[..k];
  }

  // Only the jump at p and its TESTSET, if it has one, have changed, as patching wants.
  ghost predicate OnePatched(was: Code, now: Code, p: int, vtarget: int, reg: int, dtarget: int)
    requires IsJump(was, p)
  {
    && |now| == |was|
    && now[p] == was[p].(sbx := Target(was, p, vtarget, dtarget) - (p + 1))
    && (ProducesValue(was, p) ==> now[p - 1] == Retarget(was[p - 1], reg))
    && forall q :: 0 <= q < |was| && q != p && !(ProducesValue(was, p) && q == p - 1) ==> now[q] == was[q]
  }

  lemma NonePatched(c: Code, vtarget: int, reg: int, dtarget: int)
    ensures Patched(c, c, [], vtarget, reg, dtarget)
  {}

  lemma PatchedOneMore(c: Code, was: Code, now: Code, js: seq<int>, k: int, vtarget: int, reg: int, dtarget: int)
    requires 0 <= k < |js| && Distinct(js) && IsJump(c, js[k])
    requires Patched(c, was, js[..k], vtarget, reg, dtarget)
    requires IsJump(was, js[k]) && OnePatched(was, now, js[k], vtarget, reg, dtarget)
    ensures Patched(c, now, js[..k + 1], vtarget, reg, dtarget)
  {
    PatchStep(c, was, js, k, vtarget, reg, dtarget);
    assert js[..k + 1] == js[..k] + [js[k]];
    forall q | 0 <= q < |c|
      ensures now[q] == PatchedAt(c, js[..k + 1], vtarget, reg, dtarget, q)
    {
      assert q in js[..k + 1] <==> q in js[..k] || q == js[k];
      assert q + 1 in js[..k + 1] <==> q + 1 in js[..k] || q + 1 == js[k];
      assert was[q] == PatchedAt(c, js[..k], vtarget, reg, dtarget, q);
    }
  }
}
