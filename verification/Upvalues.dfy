// lsh/lua/src/lfunc.c: open upvalues, the variables of enclosing functions that
// still live on the stack. They form a linked list ordered by stack level.
module Upvalues {
  import opened Lists

  // What uv->v points to: a stack slot, or the upvalue's own u.value.
  datatype Place = OnStack(level: nat) | Own

  class UpVal<T(0)> {
    var v: Place
    var value: T
    var next: UpVal?<T>
    var refcount: nat

    constructor (level: nat, next: UpVal?<T>)
      ensures v == OnStack(level) && this.next == next && refcount == 0
    {
      v := OnStack(level);
      this.next := next;
      refcount := 0;
    }
  }

  class LuaState<T(0)> {
    var stack: seq<T>
    var openupval: UpVal?<T>
    ghost var open: seq<UpVal<T>>   // the list, from openupval on
    ghost var levels: seq<nat>      // where each of them points

    // The value a closure sees through uv.
    function Get(uv: UpVal<T>): T
      requires uv.v.OnStack? ==> uv.v.level < |stack|
      reads this`stack, uv
    {
      if uv.v.OnStack? then stack[uv.v.level] else uv.value
    }

    ghost predicate Sees(uv: UpVal<T>, x: T)
      reads this`stack, uv
    {
      (uv.v.OnStack? ==> uv.v.level < |stack|) && Get(uv) == x
    }

    ghost predicate Linked()
      reads this, open
    {
      && (openupval == if open == [] then null else open[0])
      && (forall i {:trigger open[i].next} :: 0 <= i < |open| ==>
            open[i].next == if i + 1 < |open| then open[i + 1] else null)
    }

    // Open upvalues point into the stack, at strictly descending levels.
    ghost predicate Placed()
      reads this, open
    {
      && |levels| == |open| && Descending(levels, |stack|)
      && (forall i {:trigger open[i].v} :: 0 <= i < |open| ==> open[i].v == OnStack(levels[i]))
    }

    ghost predicate Valid()
      reads this, open
    {
      Linked() && Placed()
    }

    constructor (stack: seq<T>)
      ensures Valid() && open == [] && this.stack == stack
    {
      this.stack := stack;
      openupval := null;
      open, levels := [], [];
    }

    // The insertion of luaF_findupval, between the nodes k-1 (prev) and k (p).
    method Link(level: nat, prev: UpVal?<T>, p: UpVal?<T>, ghost k: nat) returns (uv: UpVal<T>)
      requires Valid() && level < |stack| && k <= |open|
      requires p == (if k < |open| then open[k] else null) && prev == (if k > 0 then open[k - 1] else null)
      requires Between(levels, level, k)
      modifies this`openupval, this`open, this`levels, if prev == null then {} else {prev}`next
      ensures Valid() && fresh(uv) && uv.v == OnStack(level) && uv.refcount == 0
      ensures open == Insert(old(open), k, uv) && levels == Insert(old(levels), k, level)
    {
      hide Descending, Between, Insert;
      ghost var was, old_levels := open, levels;
      OnePredecessor(prev, k);
      InsertDescending(levels, |stack|, level, k);
      uv := new UpVal(level, p);
      if prev == null {
        openupval := uv;
      } else {
        prev.next := uv;
      }
      open, levels := Insert(open, k, uv), Insert(levels, k, level);
      Shifted(was, k, uv, open);
      Shifted(old_levels, k, level, levels);
    }

    // prev is in the list only once, as no two open upvalues share a level.
    lemma OnePredecessor(prev: UpVal?<T>, k: nat)
      requires Valid() && k <= |open| && prev == (if k > 0 then open[k - 1] else null)
      ensures forall i :: 0 <= i < |open| && i + 1 != k ==> open[i] != prev
    {
      forall i | 0 <= i < |open| && i + 1 != k
        ensures open[i] != prev
      {
        if k > 0 { assert open[i].v == OnStack(levels[i]) && open[k - 1].v == OnStack(levels[k - 1]); }
      }
    }

    // luaF_findupval: the open upvalue of the level, made and linked in if there is none.
    method FindUpval(level: nat) returns (uv: UpVal<T>)
      requires Valid() && level < |stack|
      modifies this`openupval, this`open, this`levels, open`next
      ensures Valid() && uv in open && uv.v == OnStack(level) && stack == old(stack)
      ensures uv in old(open) ==> open == old(open)
      ensures uv !in old(open) ==>
        && fresh(uv) && uv.refcount == 0
        && level !in old(levels)
        && exists k: nat :: k <= |old(open)| && open == Insert(old(open), k, uv)
    {
      var prev: UpVal?<T> := null;      // the node whose next field is *pp, if any
      var p := openupval;
      ghost var k: nat := 0;
      while p != null && p.v.level >= level
        invariant Valid() && 0 <= k <= |open| && open == old(open) && stack == old(stack)
        invariant p == if k < |open| then open[k] else null
        invariant prev == if k > 0 then open[k - 1] else null
        invariant levels == old(levels) && forall i :: 0 <= i < k ==> levels[i] > level
        decreases |open| - k
      {
        if p.v.level == level { return p; }
        prev := p;
        p := p.next;
        k := k + 1;
      }
      uv := Link(level, prev, p, k);
      assert open[k] == uv;
    }

    // One round of luaF_close.
    method CloseFirst(uv: UpVal<T>)
      requires Valid() && uv == openupval
      modifies this`openupval, this`open, this`levels, uv`v, uv`value
      ensures Valid() && open == old(open)[1..] && levels == old(levels)[1..]
      ensures uv.refcount > 0 ==> uv.v == Own && uv.value == old(Get(uv))
    {
      openupval := uv.next;
      open, levels := open[1..], levels[1..];
      if uv.refcount == 0 {
        // luaM_free(uv): nothing refers to it any more
      } else {
        uv.value := stack[uv.v.level];
        uv.v := Own;
      }
    }

    // luaF_close: every open upvalue at or above the level takes its value along.
    method Close(level: nat) returns (ghost k: nat)
      requires Valid()
      modifies this`openupval, this`open, this`levels, open`v, open`value
      ensures Valid()
      ensures k <= |old(open)| && open == old(open)[k..] && levels == old(levels)[k..]
      ensures forall i :: 0 <= i < |old(levels)| ==> (old(levels)[i] >= level <==> i < k)
      ensures forall i :: 0 <= i < k ==> Shut(old(open)[i], old(stack), old(levels)[i])
      ensures forall i :: 0 <= i < |old(open)| && old(open)[i].refcount > 0 ==>
        Sees(old(open)[i], old(Get(open[i])))
    {
      hide Descending;
      ghost var was, marks := open, levels;
      k := 0;
      InStack();
      while openupval != null && openupval.v.level >= level
        invariant Valid() && k <= |was| && open == was[k..] && levels == marks[k..]
        invariant forall i :: 0 <= i < k ==> marks[i] >= level
        invariant forall i :: 0 <= i < k ==> Shut(was[i], stack, marks[i])
        decreases |open|
      {
        assert openupval == open[0] == was[k];
        CloseFirst(openupval);
        k := k + 1;
      }
      CutAt(marks, |stack|, level, k);
      forall i | 0 <= i < |was| && was[i].refcount > 0
        ensures Sees(was[i], old(Get(open[i])))
      {
        assert old(open[i].v) == OnStack(marks[i]);
        ClosedReadsSame(this, was, marks, k, i);
      }
    }

    lemma InStack()
      requires Valid()
      ensures forall i :: 0 <= i < |open| ==> open[i].v == OnStack(levels[i]) && levels[i] < |stack|
    {}
  }

  lemma CutAt(levels: seq<nat>, top: nat, level: nat, k: nat)
    requires Descending(levels, top) && k <= |levels|
    requires forall i :: 0 <= i < k ==> levels[i] >= level
    requires k < |levels| ==> levels[k] < level
    ensures forall i :: 0 <= i < |levels| ==> (levels[i] >= level <==> i < k)
  {}

  // u has been closed: if anybody refers to it, it holds what was in its stack slot.
  ghost predicate Shut<T(0)>(u: UpVal<T>, stack: seq<T>, level: nat)
    reads u
  {
    u.refcount > 0 ==> u.v == Own && level < |stack| && u.value == stack[level]
  }

  // Reading any referenced upvalue of the old list through the state after a close
  // gives what it gave before: the stack slot it stood for.
  lemma ClosedReadsSame<T(0)>(s: LuaState<T>, open: seq<UpVal<T>>, levels: seq<nat>, k: nat, i: nat)
    requires s.Valid() && |levels| == |open| && k <= |open| && i < |open|
    requires s.open == open[k..] && s.levels == levels[k..]
    requires forall j :: 0 <= j < k ==> Shut(open[j], s.stack, levels[j])
    requires open[i].refcount > 0
    ensures open[i].v == (if i < k then Own else OnStack(levels[i]))
    ensures levels[i] < |s.stack| && s.Get(open[i]) == s.stack[levels[i]]
  {
    if i >= k {
      assert s.open[i - k] == open[i] && s.levels[i - k] == levels[i];
    }
  }

  ghost predicate Descending(levels: seq<nat>, top: nat) {
    && (forall i :: 0 <= i < |levels| ==> levels[i] < top)
    && (forall i, j :: 0 <= i < j < |levels| ==> levels[i] > levels[j])
  }

  // Position k is where the level belongs.
  ghost predicate Between(levels: seq<nat>, level: nat, k: nat) {
    && k <= |levels|
    && (forall i :: 0 <= i < k ==> levels[i] > level)
    && (k < |levels| ==> levels[k] < level)
  }

  lemma InsertDescending(levels: seq<nat>, top: nat, level: nat, k: nat)
    requires Descending(levels, top) && level < top && Between(levels, level, k)
    ensures Descending(Insert(levels, k, level), top) && level !in levels
  {}
}
