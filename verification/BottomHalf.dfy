// src/kernel/bh.c and the tail of do_IRQ (src/irq.c): deferred routines, marked by
// interrupt handlers and run by do_bh while more interrupts arrive.
module BottomHalf {
  import opened Wrappers

  const NUM_BH: nat := 32

  // A slot of bh_strus, and its bit in a word
  type BhId = id: nat | id < NUM_BH

  // Grab: do_bh takes the marks over into its shadow word.
  datatype Event = Mark(id: BhId) | Grab | Start(id: BhId) | Finish(id: BhId)

  function Count(trace: seq<Event>, e: Event): nat {
    multiset(trace)[e]
  }

  // Some mark of id has no run of its routine after it.
  ghost predicate Unserved(trace: seq<Event>, id: BhId) {
    exists i :: 0 <= i < |trace| && trace[i] == Mark(id) && Start(id) !in trace[i..]
  }

  // The routine running when the trace ends.
  ghost function Current(trace: seq<Event>): Option<BhId> {
    if trace == [] then None
    else match trace[|trace| - 1]
      case Mark(_) => Current(trace[..|trace| - 1])
      case Grab => Current(trace[..|trace| - 1])
      case Start(id) => Some(id)
      case Finish(_) => None
  }

  // What has been started since the last grab.
  ghost function Round(trace: seq<Event>): set<BhId> {
    if trace == [] then {}
    else match trace[|trace| - 1]
      case Grab => {}
      case Start(id) => Round(trace[..|trace| - 1]) + {id}
      case _ => Round(trace[..|trace| - 1])
  }

  predicate Above(id: BhId, ids: set<BhId>) {
    forall x :: x in ids ==> x < id
  }

  // A routine starts only when none is running, never more often than it was marked until
  // then, and after those of a lower id in its round; what finishes is the one that runs.
  ghost predicate Serial(trace: seq<Event>) {
    trace != [] ==>
      var before, e := trace[..|trace| - 1], trace[|trace| - 1];
      && Serial(before)
      && (e.Start? ==>
            && Current(before) == None && Count(before, e) < Count(before, Mark(e.id))
            && Above(e.id, Round(before)))
      && (e.Finish? ==> Current(before) == Some(e.id))
  }

  ghost function Bit(s: set<BhId>, id: BhId): nat {
    if id in s then 1 else 0
  }

  // The words account for the trace: a mark not yet served is in one of them, and each bit
  // stands for a mark of its own that has not been used up by a run.
  ghost predicate Pending(active: set<BhId>, shadow: set<BhId>, trace: seq<Event>) {
    && Serial(trace)
    && (forall id :: Unserved(trace, id) ==> id in active || id in shadow)
    && (forall id :: Count(trace, Start(id)) + Bit(active, id) + Bit(shadow, id) <= Count(trace, Mark(id)))
  }

  lemma CountAppend(trace: seq<Event>, e: Event, x: Event)
    ensures Count(trace + [e], x) == Count(trace, x) + if x == e then 1 else 0
  {}

  lemma UnservedBefore(trace: seq<Event>, e: Event, id: BhId)
    requires Unserved(trace + [e], id) && e != Mark(id)
    ensures Unserved(trace, id) && e != Start(id)
  {
    var i :| 0 <= i < |trace| + 1 && (trace + [e])[i] == Mark(id) && Start(id) !in (trace + [e])[i..];
    assert (trace + [e])[i..] == trace[i..] + [e];
  }

  lemma Extend(trace: seq<Event>, e: Event)
    requires Serial(trace)
    requires e.Start? ==> Current(trace) == None && Count(trace, e) < Count(trace, Mark(e.id))
    requires e.Start? ==> Above(e.id, Round(trace))
    requires e.Finish? ==> Current(trace) == Some(e.id)
    ensures Serial(trace + [e])
    ensures Current(trace + [e]) == if e.Start? then Some(e.id) else if e.Finish? then None else Current(trace)
    ensures Round(trace + [e]) == if e.Start? then Round(trace) + {e.id} else if e.Grab? then {} else Round(trace)
  {
    assert (trace + [e])[..|trace|] == trace;
  }

  // The account after one more event, given what it does to the words.
  lemma PendingAfter(active: set<BhId>, shadow: set<BhId>, trace: seq<Event>, e: Event,
                     active': set<BhId>, shadow': set<BhId>)
    requires Pending(active, shadow, trace) && Serial(trace + [e])
    requires active' == if e.Mark? then active + {e.id} else active
    requires shadow' == if e.Start? then shadow - {e.id} else shadow
    requires e.Start? ==> e.id in shadow
    ensures Pending(active', shadow', trace + [e])
  {
    hide Serial, Count, Current;
    forall x | Unserved(trace + [e], x)
      ensures x in active' || x in shadow'
    {
      if e != Mark(x) { UnservedBefore(trace, e, x); }
    }
    hide Unserved;
    forall x
      ensures Count(trace + [e], Start(x)) + Bit(active', x) + Bit(shadow', x) <= Count(trace + [e], Mark(x))
    {
      CountAppend(trace, e, Start(x));
      CountAppend(trace, e, Mark(x));
    }
  }

  lemma PendingMark(active: set<BhId>, shadow: set<BhId>, trace: seq<Event>, id: BhId)
    requires Pending(active, shadow, trace)
    ensures Pending(active + {id}, shadow, trace + [Mark(id)])
    ensures Current(trace + [Mark(id)]) == Current(trace) && Round(trace + [Mark(id)]) == Round(trace)
  {
    Extend(trace, Mark(id));
    PendingAfter(active, shadow, trace, Mark(id), active + {id}, shadow);
  }

  lemma PendingStart(active: set<BhId>, shadow: set<BhId>, trace: seq<Event>, id: BhId)
    requires Pending(active, shadow, trace) && id in shadow && Current(trace) == None
    requires Above(id, Round(trace))
    ensures Pending(active, shadow - {id}, trace + [Start(id)])
    ensures Current(trace + [Start(id)]) == Some(id) && Round(trace + [Start(id)]) == Round(trace) + {id}
  {
    assert Bit(shadow, id) == 1;
    Extend(trace, Start(id));
    PendingAfter(active, shadow, trace, Start(id), active, shadow - {id});
  }

  lemma PendingFinish(active: set<BhId>, shadow: set<BhId>, trace: seq<Event>, id: BhId)
    requires Pending(active, shadow, trace) && Current(trace) == Some(id)
    ensures Pending(active, shadow, trace + [Finish(id)])
    ensures Current(trace + [Finish(id)]) == None && Round(trace + [Finish(id)]) == Round(trace)
  {
    Extend(trace, Finish(id));
    PendingAfter(active, shadow, trace, Finish(id), active, shadow);
  }

  lemma {:induction false} SerialPrefix(trace: seq<Event>, k: nat)
    requires Serial(trace) && k <= |trace|
    ensures Serial(trace[..k])
  {
    if k < |trace| {
      SerialPrefix(trace[..|trace| - 1], k);
      assert trace[..|trace| - 1][..k] == trace[..k];
    } else {
      assert trace[..k] == trace;
    }
  }

  // What started is still running, or has finished since.
  lemma {:induction false} StartedOrDone(trace: seq<Event>, i: nat)
    requires Serial(trace) && i < |trace| && trace[i].Start?
    ensures Current(trace) == Some(trace[i].id) || exists k :: i < k < |trace| && trace[k] == Finish(trace[i].id)
  {
    var last := |trace| - 1;
    if i < last {
      StartedOrDone(trace[..last], i);
      if Current(trace[..last]) == Some(trace[i].id) {
        if trace[last].Finish? { assert trace[last] == Finish(trace[i].id); }
      } else {
        var k :| i < k < last && trace[..last][k] == Finish(trace[i].id);
        assert trace[k] == Finish(trace[i].id);
      }
    }
  }

  // Routines never nest: between two starts the first has finished.
  lemma NeverNested(trace: seq<Event>, i: nat, j: nat)
    requires Serial(trace) && i < j < |trace| && trace[i].Start? && trace[j].Start?
    ensures exists k :: i < k < j && trace[k] == Finish(trace[i].id)
  {
    SerialPrefix(trace, j + 1);
    assert trace[..j + 1][..j] == trace[..j];
    StartedOrDone(trace[..j], i);
    var k :| i < k < j && trace[..j][k] == Finish(trace[i].id);
    assert trace[k] == Finish(trace[i].id);
  }

  // At no time has a routine been run more often than it was marked.
  lemma {:induction false} RunsBounded(trace: seq<Event>, k: nat, id: BhId)
    requires Serial(trace) && k <= |trace|
    ensures Count(trace[..k], Start(id)) <= Count(trace[..k], Mark(id))
  {
    if k > 0 {
      SerialPrefix(trace, k);
      var before, e := trace[..k - 1], trace[k - 1];
      assert trace[..k] == before + [e] && trace[..k][..k - 1] == before;
      RunsBounded(trace, k - 1, id);
      CountAppend(before, e, Start(id));
      CountAppend(before, e, Mark(id));
    }
  }

  // In one round the routines start in the order of their ids.
  lemma {:induction false} LowestFirst(trace: seq<Event>, i: nat, j: nat)
    requires Serial(trace) && i < j < |trace| && trace[i].Start? && trace[j].Start?
    requires Grab !in trace[i..j]
    ensures trace[i].id < trace[j].id
  {
    hide Serial, Round;
    SerialPrefix(trace, j + 1);
    StartsAbove(trace[..j + 1]);
    assert trace[..j + 1][..j] == trace[..j];
    assert trace[..j][i..] == trace[i..j];
    InRound(trace[..j], i);
  }

  lemma StartsAbove(trace: seq<Event>)
    requires Serial(trace) && trace != [] && trace[|trace| - 1].Start?
    ensures Above(trace[|trace| - 1].id, Round(trace[..|trace| - 1]))
  {}

  lemma {:induction false} InRound(trace: seq<Event>, i: nat)
    requires i < |trace| && trace[i].Start? && Grab !in trace[i..]
    ensures trace[i].id in Round(trace)
  {
    var last := |trace| - 1;
    assert trace[last] in trace[i..];
    if i < last {
      assert trace[i..] == trace[..last][i..] + [trace[last]];
      InRound(trace[..last], i);
    }
  }

  lemma PendingGrab(active: set<BhId>, trace: seq<Event>)
    requires Pending(active, {}, trace)
    ensures Pending({}, active, trace + [Grab])
    ensures Current(trace + [Grab]) == Current(trace) && Round(trace + [Grab]) == {}
  {
    Extend(trace, Grab);
    PendingAfter(active, {}, trace, Grab, active, {});
  }

  lemma AllServed(trace: seq<Event>)
    requires Pending({}, {}, trace)
    ensures forall id :: !Unserved(trace, id)
  {}

  // An interrupt is the list of routines its handler marks; what arrives at one point
  // where interrupts are on is a list of interrupts; a script is what arrives at the
  // points to come, after which it is quiet.
  type Moment = seq<seq<BhId>>

  // The ids a trace marks, in order, and those that arrivals are to mark.
  ghost function Marked(trace: seq<Event>): seq<BhId> {
    if trace == [] then []
    else
      var last := trace[|trace| - 1];
      Marked(trace[..|trace| - 1]) + if last.Mark? then [last.id] else []
  }

  ghost function Ids(moment: Moment): seq<BhId> {
    if moment == [] then [] else Ids(moment[..|moment| - 1]) + moment[|moment| - 1]
  }

  ghost function AllIds(script: seq<Moment>): seq<BhId> {
    if script == [] then [] else AllIds(script[..|script| - 1]) + Ids(script[|script| - 1])
  }

  // Of a script, rest is still to come, and the trace has marked all that went before.
  ghost predicate Arrived(script: seq<Moment>, rest: seq<Moment>, before: seq<BhId>, trace: seq<Event>) {
    && |rest| <= |script| && rest == script[|script| - |rest|..]
    && Marked(trace) == before + AllIds(script[..|script| - |rest|])
  }

  function Marks(ids: seq<BhId>): seq<Event> {
    seq(|ids|, i requires 0 <= i < |ids| => Mark(ids[i]))
  }

  lemma {:induction false} MarkedMarks(trace: seq<Event>, ids: seq<BhId>)
    ensures Marked(trace + Marks(ids)) == Marked(trace) + ids
  {
    hide Marked;
    if ids == [] {
      assert trace + Marks(ids) == trace;
    } else {
      var last := |ids| - 1;
      MarkedMarks(trace, ids[..last]);
      MarkedAppend(trace + Marks(ids[..last]), Mark(ids[last]));
      assert trace + Marks(ids) == (trace + Marks(ids[..last])) + [Mark(ids[last])];
    }
  }

  lemma {:induction false} MarksNothingElse(trace: seq<Event>, ids: seq<BhId>)
    ensures Round(trace + Marks(ids)) == Round(trace)
  {
    if ids == [] {
      assert trace + Marks(ids) == trace;
    } else {
      var last := |ids| - 1;
      MarksNothingElse(trace, ids[..last]);
      assert (trace + Marks(ids))[..|trace| + last] == trace + Marks(ids[..last]);
    }
  }

  lemma MarksAppend(trace: seq<Event>, a: seq<BhId>, b: seq<BhId>)
    ensures (trace + Marks(a)) + Marks(b) == trace + Marks(a + b)
    ensures trace + Marks([]) == trace
  {}

  lemma MarkedAppend(trace: seq<Event>, e: Event)
    ensures Marked(trace + [e]) == Marked(trace) + if e.Mark? then [e.id] else []
  {
    assert (trace + [e])[..|trace|] == trace;
  }

  lemma NothingArrived(script: seq<Moment>, trace: seq<Event>)
    ensures Arrived(script, script, Marked(trace), trace)
  {
    assert script[..0] == [];
  }

  lemma NotMarked(script: seq<Moment>, rest: seq<Moment>, before: seq<BhId>, trace: seq<Event>, e: Event)
    requires Arrived(script, rest, before, trace) && !e.Mark?
    ensures Arrived(script, rest, before, trace + [e])
  {
    MarkedAppend(trace, e);
  }

  lemma AllIdsNext(script: seq<Moment>, k: nat)
    requires k < |script|
    ensures AllIds(script[..k + 1]) == AllIds(script[..k]) + Ids(script[k])
  {
    assert script[..k + 1][..k] == script[..k];
  }

  lemma ArrivedNext(script: seq<Moment>, rest: seq<Moment>, before: seq<BhId>, trace: seq<Event>, trace': seq<Event>)
    requires Arrived(script, rest, before, trace)
    requires Marked(trace') == Marked(trace) + if rest == [] then [] else Ids(rest[0])
    ensures Arrived(script, if rest == [] then [] else rest[1..], before, trace')
  {
    hide AllIds, Ids, Marked;
    if rest != [] {
      var k := |script| - |rest|;
      AllIdsNext(script, k);
      assert rest[0] == script[k] && rest[1..] == script[k + 1..];
      assert (before + AllIds(script[..k])) + Ids(script[k]) == before + (AllIds(script[..k]) + Ids(script[k]));
    }
  }

  ghost predicate Allocated(using: set<BhId>, script: seq<Moment>) {
    forall m, irq, id :: m in script && irq in m && id in irq ==> id in using
  }

  class BottomHalves {
    const using: set<BhId>
    var active: set<BhId>
    var disabled: bool
    ghost var trace: seq<Event>

    constructor (using: set<BhId>)
      ensures this.using == using && active == {} && !disabled && trace == []
      ensures Pending(active, {}, trace)
    {
      this.using := using;
      active, disabled, trace := {}, false, [];
    }

    method MarkBh(id: BhId, ghost shadow: set<BhId>)
      requires Pending(active, shadow, trace) && id in using
      modifies this`active, this`trace
      ensures active == old(active) + {id} && trace == old(trace) + [Mark(id)]
      ensures Pending(active, shadow, trace) && Current(trace) == old(Current(trace))
    {
      PendingMark(active, shadow, trace, id);
      active := active + {id};
      trace := trace + [Mark(id)];
    }

    // do_IRQ: the handler marks its routines; do_bh follows, unless it is disabled.
    method DoIrq(irq: seq<BhId>, script: seq<Moment>, ghost shadow: set<BhId>) returns (rest: seq<Moment>)
      requires Pending(active, shadow, trace) && Allocated(using, script)
      requires forall id :: id in irq ==> id in using
      requires !disabled ==> shadow == {} && Current(trace) == None
      modifies this
      ensures Pending(active, shadow, trace) && Current(trace) == old(Current(trace))
      ensures disabled == old(disabled) && Allocated(using, rest)
      ensures disabled ==> rest == script && trace == old(trace) + Marks(irq)
      ensures !disabled ==> active == {} && old(trace) + Marks(irq) <= trace
      ensures !disabled ==> Arrived(script, rest, old(Marked(trace)) + irq, trace)
      decreases |script|, 4
    {
      hide Pending, Current, Allocated, Arrived, Marked, Marks;
      MarkAll(irq, shadow);
      MarkedMarks(old(trace), irq);
      if disabled {
        rest := script;
      } else {
        rest := DoBh(script);
      }
    }

    // The handler
    method MarkAll(irq: seq<BhId>, ghost shadow: set<BhId>)
      requires Pending(active, shadow, trace) && forall id :: id in irq ==> id in using
      modifies this`active, this`trace
      ensures Pending(active, shadow, trace) && Current(trace) == old(Current(trace))
      ensures trace == old(trace) + Marks(irq)
    {
      hide Pending, Current;
      for i := 0 to |irq|
        invariant Pending(active, shadow, trace) && Current(trace) == old(Current(trace))
        invariant trace == old(trace) + Marks(irq[..i])
      {
        assert irq[i] in irq;
        MarkBh(irq[i], shadow);
      }
      assert irq[..|irq|] == irq;
    }

    // Everything that arrives at one point inside do_bh.
    method Interrupts(script: seq<Moment>, ghost shadow: set<BhId>) returns (rest: seq<Moment>)
      requires Pending(active, shadow, trace) && Allocated(using, script) && disabled
      modifies this
      ensures Pending(active, shadow, trace) && Current(trace) == old(Current(trace))
      ensures disabled && Allocated(using, rest)
      ensures rest == if script == [] then [] else script[1..]
      ensures script == [] ==> active == old(active)
      ensures trace == old(trace) + Marks(if script == [] then [] else Ids(script[0]))
      decreases |script|, 0
    {
      hide Pending, Current, Arrived, Marked, Marks;
      MarksAppend(trace, [], []);
      if script == [] { return []; }
      assert script[0] in script;
      rest := script[1..];
      for i := 0 to |script[0]|
        invariant Pending(active, shadow, trace) && Current(trace) == old(Current(trace))
        invariant disabled && rest == script[1..] && Allocated(using, rest)
        invariant trace == old(trace) + Marks(Ids(script[0][..i]))
      {
        assert script[0][i] in script[0] && script[0][..i + 1][..i] == script[0][..i];
        MarksAppend(old(trace), Ids(script[0][..i]), script[0][i]);
        rest := DoIrq(script[0][i], rest, shadow);
      }
      assert script[0][..|script[0]|] == script[0];
    }

    // A point of do_bh where interrupts are on.
    method Arrivals(script: seq<Moment>, now: seq<Moment>, ghost shadow: set<BhId>, ghost before: seq<BhId>)
      returns (rest: seq<Moment>)
      requires Pending(active, shadow, trace) && Allocated(using, now) && disabled
      requires Arrived(script, now, before, trace)
      modifies this
      ensures Pending(active, shadow, trace) && Current(trace) == old(Current(trace))
      ensures disabled && Allocated(using, rest) && old(trace) <= trace
      ensures Arrived(script, rest, before, trace) && Round(trace) == old(Round(trace))
      ensures |rest| <= |now| && (active != old(active) ==> |rest| < |now|)
      decreases |now|, 1
    {
      rest := Interrupts(now, shadow);
      MarkedMarks(old(trace), if now == [] then [] else Ids(now[0]));
      MarksNothingElse(old(trace), if now == [] then [] else Ids(now[0]));
      ArrivedNext(script, now, before, old(trace), trace);
    }

    // One round of do_bh's inner loop: the routine of the lowest bit runs.
    method RunLowest(script: seq<Moment>, now: seq<Moment>, shadow: set<BhId>, ghost before: seq<BhId>)
      returns (rest: seq<Moment>, id: BhId)
      requires Pending(active, shadow, trace) && Current(trace) == None && Allocated(using, now) && disabled
      requires shadow != {} && Arrived(script, now, before, trace)
      requires forall x, y :: x in Round(trace) && y in shadow ==> x < y
      modifies this
      ensures id in shadow && forall x :: x in shadow ==> id <= x
      ensures Pending(active, shadow - {id}, trace) && Current(trace) == None
      ensures disabled && Allocated(using, rest) && old(trace) <= trace
      ensures Arrived(script, rest, before, trace) && Round(trace) == old(Round(trace)) + {id}
      ensures |rest| <= |now| && (active != old(active) ==> |rest| < |now|)
      decreases |now|, 2
    {
      hide Pending, Current, Round, Allocated, Arrived, Marked;
      rest := Arrivals(script, now, shadow, before);
      id := LowestBit(shadow);
      PendingStart(active, shadow, trace, id);
      NotMarked(script, rest, before, trace, Start(id));
      trace := trace + [Start(id)];
      rest := Arrivals(script, rest, shadow - {id}, before);     // while the routine runs
      PendingFinish(active, shadow - {id}, trace, id);
      NotMarked(script, rest, before, trace, Finish(id));
      trace := trace + [Finish(id)];
    }

    // do_bh. Once it returns, every mark has been followed by a run.
    method DoBh(script: seq<Moment>) returns (rest: seq<Moment>)
      requires Pending(active, {}, trace) && Allocated(using, script)
      requires !disabled && Current(trace) == None
      modifies this
      ensures Pending(active, {}, trace) && Current(trace) == None
      ensures !disabled && Allocated(using, rest) && old(trace) <= trace
      ensures active == {} && forall id :: !Unserved(trace, id)
      ensures Arrived(script, rest, old(Marked(trace)), trace)
      decreases |script|, 3
    {
      hide Pending, Current, Round, Allocated, Arrived, Marked;
      rest := script;
      NothingArrived(script, trace);
      disabled := true;
      while true
        invariant Pending(active, {}, trace) && Current(trace) == None
        invariant disabled && Allocated(using, rest) && old(trace) <= trace
        invariant |rest| <= |script| && Arrived(script, rest, old(Marked(trace)), trace)
        decreases |rest|
      {
        ghost var ahead := |rest|;
        PendingGrab(active, trace);
        NotMarked(script, rest, old(Marked(trace)), trace, Grab);
        var shadow := active;
        active := {};
        trace := trace + [Grab];
        while shadow != {}
          invariant Pending(active, shadow, trace) && Current(trace) == None
          invariant disabled && Allocated(using, rest) && old(trace) <= trace
          invariant |rest| <= ahead && (active != {} ==> |rest| < ahead)
          invariant forall x, y :: x in Round(trace) && y in shadow ==> x < y
          invariant Arrived(script, rest, old(Marked(trace)), trace)
          decreases |shadow|
        {
          var id;
          rest, id := RunLowest(script, rest, shadow, old(Marked(trace)));
          shadow := shadow - {id};
        }
        rest := Arrivals(script, rest, shadow, old(Marked(trace)));
        if active == {} { break; }
      }
      AllServed(trace);
      disabled := false;
    }
  }

  // __bs
  method LowestBit(shadow: set<BhId>) returns (id: BhId)
    requires shadow != {}
    ensures id in shadow && forall x :: x in shadow ==> id <= x
  {
    var some :| some in shadow;
    id := 0;
    while id !in shadow
      invariant id <= some && forall x :: x in shadow ==> id <= x
      decreases some - id
    {
      id := id + 1;
    }
  }
}
