// The priority-ordered process lists of src/schedule.c, as LL_I_INCRE and
// LL_DEL (src/include/linux/mylist.h) keep them.
module SchedQueues {
  import opened Lists

  type Pid = nat

  type U32 = n: nat | n < 0x1_0000_0000

  datatype Pcb = Pcb(prio: nat, slice: nat, full: nat, msgType: nat, msgBind: U32)

  type Procs = map<Pid, Pcb>

  ghost predicate Known(procs: Procs, q: seq<Pid>) {
    forall i :: 0 <= i < |q| ==> q[i] in procs
  }

  ghost predicate Sorted(procs: Procs, q: seq<Pid>)
    requires Known(procs, q)
  {
    forall i, j :: 0 <= i < j < |q| ==> procs[q[i]].prio <= procs[q[j]].prio
  }

  // Where LL_I_INCRE puts p: in front of the first process whose prio is not
  // below p's, so also in front of its equals.
  ghost predicate InsertedAt(procs: Procs, q: seq<Pid>, p: Pid, r: seq<Pid>, k: nat)
    requires Known(procs, q) && p in procs
  {
    && k <= |q| && r == q[..k] + [p] + q[k..]
    && (forall i :: 0 <= i < k ==> procs[q[i]].prio < procs[p].prio)
    && (k < |q| ==> procs[p].prio <= procs[q[k]].prio)
  }

  // LL_I_INCRE: walk while there is a next node and p's prio is larger, then
  // insert behind the node reached if p's prio is larger than its, else before it.
  method InsertIncre(procs: Procs, q: seq<Pid>, p: Pid) returns (r: seq<Pid>, ghost k: nat)
    requires Known(procs, q) && p in procs
    ensures InsertedAt(procs, q, p, r, k)
    ensures k <= |q| && r == q[..k] + [p] + q[k..]
    ensures forall i :: 0 <= i < k ==> procs[q[i]].prio < procs[p].prio
    ensures k < |q| ==> procs[p].prio <= procs[q[k]].prio
  {
    if q == [] {
      return [p], 0;
    }
    var i := 0;
    while i + 1 < |q| && procs[p].prio > procs[q[i]].prio
      invariant 0 <= i < |q|
      invariant forall j :: 0 <= j < i ==> procs[q[j]].prio < procs[p].prio
    {
      i := i + 1;
    }
    if procs[p].prio > procs[q[i]].prio {
      r := q[..i + 1] + [p] + q[i + 1..];
      k := i + 1;
    } else {
      r := q[..i] + [p] + q[i..];
      k := i;
    }
  }

  // Among processes of one prio the one inserted last stands first.
  lemma LastComesFirst(procs: Procs, q: seq<Pid>, p: Pid, r: seq<Pid>, k: nat, i: nat, j: nat)
    requires Known(procs, q) && Sorted(procs, q) && p in procs && InsertedAt(procs, q, p, r, k)
    requires i < |r| && j < |r| && r[i] == p && p !in q && r[j] in procs && procs[r[j]].prio == procs[p].prio
    ensures i <= j
  {
    assert forall m :: 0 <= m < k ==> r[m] == q[m];
    assert q == q[..k] + q[k..];
    assert forall m :: 0 <= m < |r| && m != k ==> r[m] in q;
  }

  lemma InsertedSorted(procs: Procs, q: seq<Pid>, p: Pid, r: seq<Pid>, k: nat)
    requires Known(procs, q) && p in procs && InsertedAt(procs, q, p, r, k)
    requires Distinct(q) && p !in q && Sorted(procs, q)
    ensures Known(procs, r) && Distinct(r) && Sorted(procs, r)
  {
    forall i | 0 <= i < |r|
      ensures r[i] == if i < k then q[i] else if i == k then p else q[i - 1]
    {}
  }

  lemma InsertedMembers(procs: Procs, q: seq<Pid>, p: Pid, r: seq<Pid>, k: nat)
    requires Known(procs, q) && p in procs && InsertedAt(procs, q, p, r, k)
    ensures forall x :: x in r <==> x in q || x == p
  {
    assert q == q[..k] + q[k..];
  }

  lemma RemoveKeeps(procs: Procs, q: seq<Pid>, p: Pid)
    requires Known(procs, q) && Distinct(q) && Sorted(procs, q)
    ensures Known(procs, Remove(q, p)) && Distinct(Remove(q, p)) && Sorted(procs, Remove(q, p))
    ensures forall x :: x in Remove(q, p) <==> x in q && x != p
  {
    RemoveDistinct(q, p);
    forall i | 0 <= i < |Remove(q, p)|
      ensures Remove(q, p)[i] in procs
    {
      assert Remove(q, p)[i] in q;
    }
    RemoveSorted(procs, q, p);
  }

  lemma {:induction false} RemoveSorted(procs: Procs, q: seq<Pid>, p: Pid)
    requires Known(procs, q) && Sorted(procs, q) && Known(procs, Remove(q, p))
    ensures Sorted(procs, Remove(q, p))
  {
    if q != [] && q[0] != p {
      var t := Remove(q[1..], p);
      assert Remove(q, p)[1..] == t;
      RemoveSorted(procs, q[1..], p);
      forall j | 0 <= j < |t|
        ensures procs[q[0]].prio <= procs[t[j]].prio
      {
        assert t[j] in q[1..];
        var i :| 1 <= i < |q| && q[i] == t[j];
      }
    }
  }

  // ------------------------------------------------------ time slices

  ghost function Slices(procs: Procs, q: seq<Pid>): nat
    requires Known(procs, q)
  {
    if q == [] then 0 else procs[q[0]].slice + Slices(procs, q[1..])
  }

  lemma {:induction false} SlicesAppend(procs: Procs, q: seq<Pid>, r: seq<Pid>)
    requires Known(procs, q) && Known(procs, r)
    ensures Known(procs, q + r) && Slices(procs, q + r) == Slices(procs, q) + Slices(procs, r)
  {
    if q == [] {
      assert q + r == r;
    } else {
      SlicesAppend(procs, q[1..], r);
      assert (q + r)[1..] == q[1..] + r;
    }
  }

  lemma SlicesAround(procs: Procs, q: seq<Pid>, p: Pid, r: seq<Pid>)
    requires Known(procs, q) && Known(procs, r) && p in procs
    ensures Known(procs, q + [p] + r) && Known(procs, q + r)
    ensures Slices(procs, q + [p] + r) == Slices(procs, q + r) + procs[p].slice
  {
    SlicesAppend(procs, q, r);
    SlicesAppend(procs, q, [p]);
    SlicesAppend(procs, q + [p], r);
  }

  lemma SlicesInsert(procs: Procs, q: seq<Pid>, p: Pid, r: seq<Pid>, k: nat)
    requires Known(procs, q) && p in procs && InsertedAt(procs, q, p, r, k)
    ensures Known(procs, r) && Slices(procs, r) == Slices(procs, q) + procs[p].slice
  {
    SlicesAround(procs, q[..k], p, q[k..]);
    assert q[..k] + q[k..] == q;
  }

  lemma {:induction false} SlicesRemove(procs: Procs, q: seq<Pid>, p: Pid)
    requires Known(procs, q) && p in q
    ensures Known(procs, Remove(q, p)) && Slices(procs, Remove(q, p)) == Slices(procs, q) - procs[p].slice
  {
    if q[0] != p {
      SlicesRemove(procs, q[1..], p);
      assert Remove(q, p)[1..] == Remove(q[1..], p);
    }
  }

  lemma {:induction false} SlicesFrame(procs: Procs, procs': Procs, q: seq<Pid>)
    requires Known(procs, q) && Known(procs', q)
    requires forall i :: 0 <= i < |q| ==> procs'[q[i]].slice == procs[q[i]].slice
    ensures Slices(procs', q) == Slices(procs, q)
  {
    if q != [] {
      SlicesFrame(procs, procs', q[1..]);
    }
  }

  // ------------------------------------------------------ one list

  // A well-kept list without the idle process; on it, every slice is positive or every one zero.
  ghost predicate Kept(procs: Procs, q: seq<Pid>, idle: Pid, positive: bool) {
    && Known(procs, q) && Distinct(q) && Sorted(procs, q) && idle !in q
    && forall i :: 0 <= i < |q| ==> (procs[q[i]].slice > 0 <==> positive)
  }

  lemma KeptMember(procs: Procs, q: seq<Pid>, idle: Pid, positive: bool, p: Pid)
    requires Kept(procs, q, idle, positive) && p in q
    ensures p in procs && p != idle && (procs[p].slice > 0 <==> positive)
  {}

  // p's block changes, prio and slice excepted.
  ghost predicate SameButMessage(procs: Procs, procs': Procs, p: Pid) {
    && p in procs && procs'.Keys == procs.Keys
    && procs'[p].prio == procs[p].prio && procs'[p].slice == procs[p].slice && procs'[p].full == procs[p].full
    && forall x :: x in procs && x != p ==> procs'[x] == procs[x]
  }

  lemma TakenOut(procs: Procs, q: seq<Pid>, idle: Pid, positive: bool, p: Pid)
    requires Kept(procs, q, idle, positive) && p in q
    ensures Kept(procs, Remove(q, p), idle, positive) && Known(procs, Remove(q, p))
    ensures forall x :: x in Remove(q, p) <==> x in q && x != p
    ensures Slices(procs, Remove(q, p)) == Slices(procs, q) - procs[p].slice
  {
    RemoveKeeps(procs, q, p);
    SlicesRemove(procs, q, p);
    forall i | 0 <= i < |Remove(q, p)|
      ensures procs[Remove(q, p)[i]].slice > 0 <==> positive
    {
      KeptMember(procs, q, idle, positive, Remove(q, p)[i]);
    }
  }

  lemma PutIn(procs: Procs, q: seq<Pid>, idle: Pid, positive: bool, p: Pid, r: seq<Pid>, k: nat)
    requires Kept(procs, q, idle, positive) && p !in q && p in procs && p != idle
    requires (procs[p].slice > 0 <==> positive) && InsertedAt(procs, q, p, r, k)
    ensures Kept(procs, r, idle, positive) && Known(procs, r)
    ensures forall x :: x in r <==> x in q || x == p
    ensures Slices(procs, r) == Slices(procs, q) + procs[p].slice
  {
    InsertedSorted(procs, q, p, r, k);
    InsertedMembers(procs, q, p, r, k);
    SlicesInsert(procs, q, p, r, k);
    forall i | 0 <= i < |r|
      ensures procs[r[i]].slice > 0 <==> positive
    {
      assert r[i] in r;
    }
  }

  // Changing a process block without touching prio or slice leaves every list as it was.
  lemma SameLists(procs: Procs, procs': Procs, q: seq<Pid>, idle: Pid, positive: bool, p: Pid)
    requires Kept(procs, q, idle, positive) && SameButMessage(procs, procs', p)
    ensures Kept(procs', q, idle, positive) && Known(procs', q) && Slices(procs', q) == Slices(procs, q)
  {
    assert forall i :: 0 <= i < |q| ==> procs'[q[i]].slice == procs[q[i]].slice;
    SlicesFrame(procs, procs', q);
  }

  // A process not on the list may get any slice.
  lemma OtherSlice(procs: Procs, q: seq<Pid>, idle: Pid, positive: bool, p: Pid, b: Pcb)
    requires Kept(procs, q, idle, positive) && p !in q
    ensures Kept(procs[p := b], q, idle, positive) && Known(procs[p := b], q)
    ensures Slices(procs[p := b], q) == Slices(procs, q)
  {
    assert forall i :: 0 <= i < |q| ==> q[i] in q;
    SlicesFrame(procs, procs[p := b], q);
  }

  // A process on the list may use up part of its slice.
  lemma LessSlice(procs: Procs, q: seq<Pid>, idle: Pid, p: Pid, b: Pcb)
    requires Kept(procs, q, idle, true) && p in q && b.prio == procs[p].prio && b.slice > 0
    ensures Kept(procs[p := b], q, idle, true) && Known(procs[p := b], q)
    ensures Slices(procs[p := b], q) == Slices(procs, q) - procs[p].slice + b.slice
  {
    LessSlices(procs, q, p, b);
  }

  lemma {:induction false} LessSlices(procs: Procs, q: seq<Pid>, p: Pid, b: Pcb)
    requires Known(procs, q) && Distinct(q) && p in q
    ensures Known(procs[p := b], q) && Slices(procs[p := b], q) == Slices(procs, q) - procs[p].slice + b.slice
  {
    TailMembers(q);
    if q[0] == p {
      SlicesFrame(procs, procs[p := b], q[1..]);
    } else {
      LessSlices(procs, q[1..], p, b);
    }
  }
}
