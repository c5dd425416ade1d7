// src/schedule.c: the active, expired and sleeping lists, the clock tick and the
// choice of the next process. Interrupts are off in all of it, so every method
// is one step.
module Scheduler {
  import opened Lists
  import opened SchedQueues

  const MSGTYPE_TIMER: nat := 255
  const TWO32: nat := 0x1_0000_0000

  class Sched {
    const idle: Pid                 // task0, on no list
    var procs: Procs
    var active: seq<Pid>
    var expire: seq<Pid>
    var sleep: seq<Pid>
    var current: Pid
    var needResched: set<Pid>       // the processes with need_resched set
    var ticks: nat
    ghost var epochBudget: nat      // the slices dealt out at the last exchange
    ghost var userTicks: nat        // user ticks since then

    ghost predicate Lists()
      reads this`procs, this`active, this`expire, this`sleep
    {
      && Kept(procs, active, idle, true)
      && Kept(procs, sleep, idle, true)
      && Kept(procs, expire, idle, false)
    }

    // No process is on two lists.
    ghost predicate Apart()
      reads this`active, this`expire, this`sleep
    {
      && (forall p :: p in active ==> p !in expire && p !in sleep)
      && (forall p :: p in expire ==> p !in sleep)
    }

    // Every process but the idle one is on a list; with Apart, on exactly one.
    ghost predicate Placed()
      reads this`procs, this`active, this`expire, this`sleep
    {
      forall p :: p in procs && p != idle ==> p in active || p in expire || p in sleep
    }

    // p sleeps until it is woken by name: no timer will wake it.
    ghost predicate Deep(p: Pid)
      reads this`procs, this`sleep
    {
      p in sleep && p in procs && procs[p].msgType == 0
    }

    // A wait queue: all of its processes sleep, none is on it twice.
    ghost predicate Waiting(root: seq<Pid>)
      reads this`procs, this`sleep
    {
      Distinct(root) && forall p :: p in root ==> Deep(p)
    }

    ghost function Budget(): nat
      requires Known(procs, active) && Known(procs, sleep)
      reads this`procs, this`active, this`sleep
    {
      Slices(procs, active) + Slices(procs, sleep)
    }

    ghost predicate Valid()
      reads this
    {
      && Lists() && Apart() && Placed()
      && idle in procs && current in procs
      && (forall p :: p in procs ==> procs[p].full > 0)
      && userTicks + Budget() == epochBudget
    }

    // Lists and order after a change that concerns only p's message fields.
    twostate lemma OnlyMessage(p: Pid)
      requires old(Lists()) && SameButMessage(old(procs), procs, p)
      requires active == old(active) && sleep == old(sleep) && expire == old(expire)
      ensures Lists() && Known(procs, active) && Known(procs, sleep)
      ensures Known(old(procs), active) && Known(old(procs), sleep)
      ensures Slices(procs, active) == old(Slices(procs, active)) && Slices(procs, sleep) == old(Slices(procs, sleep))
    {
      SameLists(old(procs), procs, active, idle, true, p);
      SameLists(old(procs), procs, sleep, idle, true, p);
      SameLists(old(procs), procs, expire, idle, false, p);
    }

    method SetMessage(p: Pid, msgType: nat, msgBind: U32)
      requires Valid() && p in procs
      modifies this`procs
      ensures Valid() && procs == old(procs)[p := old(procs)[p].(msgType := msgType, msgBind := msgBind)]
    {
      procs := procs[p := procs[p].(msgType := msgType, msgBind := msgBind)];
      OnlyMessage(p);
    }

    // active_sleep
    method ActiveSleep(p: Pid, msgType: nat, msgBind: U32)
      requires Valid() && p in active
      modifies this`procs, this`active, this`sleep
      ensures Valid() && procs == old(procs)[p := old(procs)[p].(msgType := msgType, msgBind := msgBind)]
      ensures active == Remove(old(active), p)
      ensures exists k: nat :: InsertedAt(procs, old(sleep), p, sleep, k)
    {
      hide Kept, InsertedAt, Slices;
      KeptMember(procs, active, idle, true, p);
      SetMessage(p, msgType, msgBind);
      TakenOut(procs, active, idle, true, p);
      active := Remove(active, p);
      ghost var q := sleep;
      ghost var k;
      KnownList(procs, sleep, idle, true);
      sleep, k := InsertIncre(procs, sleep, p);
      PutIn(procs, q, idle, true, p, sleep, k);
    }

    // sleep_active
    method SleepActive(p: Pid)
      requires Valid() && p in sleep
      modifies this`procs, this`active, this`sleep
      ensures Valid() && procs == old(procs)[p := old(procs)[p].(msgType := 0)]
      ensures sleep == Remove(old(sleep), p)
      ensures exists k: nat :: InsertedAt(procs, old(active), p, active, k)
    {
      hide Kept, InsertedAt, Slices;
      KeptMember(procs, sleep, idle, true, p);
      SetMessage(p, 0, procs[p].msgBind);
      KnownList(procs, active, idle, true);
      TakenOut(procs, sleep, idle, true, p);
      sleep := Remove(sleep, p);
      ghost var q := active;
      ghost var k;
      active, k := InsertIncre(procs, active, p);
      PutIn(procs, q, idle, true, p, active, k);
    }

    // --current->time_slice, with some of it left
    method SpendTick()
      requires Valid() && current in active && procs[current].slice > 1
      modifies this`procs, this`userTicks
      ensures Valid() && userTicks == old(userTicks) + 1
      ensures procs == old(procs)[current := old(procs)[current].(slice := old(procs)[current].slice - 1)]
    {
      hide Kept, Slices;
      var b := procs[current].(slice := procs[current].slice - 1);
      OtherSlice(procs, sleep, idle, true, current, b);
      OtherSlice(procs, expire, idle, false, current, b);
      LessSlice(procs, active, idle, current, b);
      userTicks := userTicks + 1;
      procs := procs[current := b];
    }

    // --current->time_slice down to zero, and active_expire
    method SpendLast()
      requires Valid() && current in active && procs[current].slice == 1
      modifies this`procs, this`active, this`expire, this`userTicks
      ensures Valid() && userTicks == old(userTicks) + 1
      ensures procs == old(procs)[current := old(procs)[current].(slice := 0)]
      ensures active == Remove(old(active), current)
      ensures exists k: nat :: InsertedAt(procs, old(expire), current, expire, k)
    {
      hide Kept, InsertedAt, Slices;
      KeptMember(procs, active, idle, true, current);
      var b := procs[current].(slice := 0);
      OtherSlice(procs, sleep, idle, true, current, b);
      OtherSlice(procs, expire, idle, false, current, b);
      userTicks := userTicks + 1;
      TakenOut(procs, active, idle, true, current);
      OtherSlice(procs, Remove(active, current), idle, true, current, b);
      procs := procs[current := b];
      active := Remove(active, current);
      ghost var q := expire;
      ghost var k;
      expire, k := InsertIncre(procs, expire, current);
      PutIn(procs, q, idle, false, current, expire, k);
    }

    // The user-mode half of do_timer: the running process pays for the tick, and
    // with its last one it moves to the expired list.
    method UserTick()
      requires Valid() && current in active
      modifies this`procs, this`active, this`expire, this`needResched, this`userTicks
      ensures Valid() && userTicks == old(userTicks) + 1
      ensures procs == old(procs)[current := old(procs)[current].(slice := old(procs)[current].slice - 1)]
      ensures procs[current].slice > 0 ==>
        active == old(active) && expire == old(expire) && needResched == old(needResched)
      ensures procs[current].slice == 0 ==>
        && active == Remove(old(active), current) && needResched == old(needResched) + {current}
        && exists k: nat :: InsertedAt(procs, old(expire), current, expire, k)
    {
      hide Kept, Slices, InsertedAt;
      KeptMember(procs, active, idle, true, current);
      if procs[current].slice - 1 == 0 {
        SpendLast();
        needResched := needResched + {current};
      } else {
        SpendTick();
      }
    }

    // The sleeping half of do_timer: every timer counts down, and those that reach
    // zero are woken. The next node is taken before the current one may move.
    method TimerPass()
      requires Valid()
      modifies this`procs, this`active, this`sleep, this`needResched
      ensures Valid() && procs.Keys == old(procs).Keys
      ensures forall p :: p in procs ==>
        procs[p] == if p in old(sleep) then Ticked(old(procs)[p]) else old(procs)[p]
      ensures forall p :: p in sleep <==> p in old(sleep) && !Wakes(old(procs)[p])
      ensures forall p :: p in active <==> p in old(active) || (p in old(sleep) && Wakes(old(procs)[p]))
      ensures expire == old(expire)
      ensures needResched == old(needResched) + if SomeoneWakes(old(procs), old(sleep)) then {current} else {}
    {
      hide Kept, Slices, InsertedAt;
      var rest := sleep;
      ghost var i: nat := 0;
      KnownList(procs, sleep, idle, true);
      while rest != []
        invariant i <= |old(sleep)| && rest == old(sleep)[i..]
        invariant Valid() && procs.Keys == old(procs).Keys
        invariant forall p :: p in procs ==>
          procs[p] == if p in old(sleep)[..i] then Ticked(old(procs)[p]) else old(procs)[p]
        invariant forall p :: p in sleep <==> p in old(sleep) && (p in old(sleep)[..i] ==> !Wakes(old(procs)[p]))
        invariant forall p :: p in active <==> p in old(active) || (p in old(sleep)[..i] && Wakes(old(procs)[p]))
        invariant needResched == old(needResched) + if SomeoneWakes(old(procs), old(sleep)[..i]) then {current} else {}
        decreases |rest|
      {
        var curr := rest[0];
        NotYetSeen(old(procs), old(sleep), idle, i);
        WakesOneMore(old(procs), old(sleep)[..i], curr);
        TickOne(curr);
        rest := rest[1..];
        i := i + 1;
      }
      assert old(sleep)[..i] == old(sleep);
    }

    method TickOne(curr: Pid)
      requires Valid() && curr in sleep
      modifies this`procs, this`active, this`sleep, this`needResched
      ensures Valid() && procs == old(procs)[curr := Ticked(old(procs)[curr])]
      ensures forall p :: p in sleep <==> p in old(sleep) && (p == curr ==> !Wakes(old(procs)[p]))
      ensures forall p :: p in active <==> p in old(active) || (p == curr && Wakes(old(procs)[p]))
      ensures needResched == old(needResched) + if Wakes(old(procs)[curr]) then {current} else {}
    {
      hide Kept, Slices;
      KeptMember(procs, sleep, idle, true, curr);
      if procs[curr].msgType == MSGTYPE_TIMER {
        SetMessage(curr, procs[curr].msgType, (procs[curr].msgBind - 1) % TWO32);
        if procs[curr].msgBind == 0 {
          if procs[curr].slice > 0 {
            Wake(curr);
            needResched := needResched + {current};
          } else {
            assert false;  // sleep_expire: no sleeping process has an empty slice
          }
        }
      }
    }

    // sleep_active, by membership
    method Wake(p: Pid)
      requires Valid() && p in sleep
      modifies this`procs, this`active, this`sleep
      ensures Valid() && procs == old(procs)[p := old(procs)[p].(msgType := 0)]
      ensures forall x :: x in sleep <==> x in old(sleep) && x != p
      ensures forall x :: x in active <==> x in old(active) || x == p
    {
      hide Kept, Slices;
      TakenOut(procs, sleep, idle, true, p);
      KnownList(procs, active, idle, true);
      SleepActive(p);
      ghost var k: nat :| InsertedAt(procs, old(active), p, active, k);
      InsertedMembers(procs, old(active), p, active, k);
    }

    // do_timer: the running process pays for a tick in user mode, and every timer counts down.
    method DoTimer(user: bool)
      requires Valid() && (user ==> current in active)
      modifies this`procs, this`active, this`expire, this`sleep, this`needResched, this`ticks, this`userTicks
      ensures Valid() && ticks == old(ticks) + 1
      ensures userTicks == old(userTicks) + (if user then 1 else 0)
      ensures epochBudget == old(epochBudget)
      ensures procs.Keys == old(procs).Keys
      ensures forall p :: p in procs ==>
        procs[p] == if p in old(sleep) then Ticked(old(procs)[p])
                    else if user && p == current then Charged(old(procs)[p]) else old(procs)[p]
      ensures forall p :: p in sleep <==> p in old(sleep) && !Wakes(old(procs)[p])
      ensures forall p :: p in expire <==> p in old(expire) || (user && Expires(old(procs), current, p))
      ensures forall p :: p in active <==>
        || (p in old(active) && !(user && Expires(old(procs), current, p)))
        || (p in old(sleep) && Wakes(old(procs)[p]))
      ensures forall p :: Deep(p) <==> old(Deep(p))
      ensures needResched == old(needResched) +
        if (user && Expires(old(procs), current, current)) || SomeoneWakes(old(procs), old(sleep))
        then {current} else {}
    {
      hide Kept, Slices, InsertedAt;
      ticks := ticks + 1;
      if user {
        KeptMember(procs, active, idle, true, current);
        KnownList(procs, expire, idle, false);
        TakenOut(procs, active, idle, true, current);
        UserTick();
        if procs[current].slice == 0 {
          Expired(old(procs), procs, old(expire), current, expire);
        }
      }
      TimerPass();
    }

    // The same in numbers. A timer at 1 wakes its process; any other counts down, from 0 to the
    // largest u32. Other sleepers sleep on. The running process loses one unit of its slice to a
    // user tick, and with the last it expires.
    method ClockTick(user: bool)
      requires Valid() && (user ==> current in active)
      modifies this`procs, this`active, this`expire, this`sleep, this`needResched, this`ticks, this`userTicks
      ensures Valid() && procs.Keys == old(procs).Keys
      ensures forall p :: p in old(sleep) && old(procs)[p].msgType == 255 ==>
        if old(procs)[p].msgBind == 1 then p in active && p !in sleep && procs[p].msgType == 0
        else
          && p in sleep && p !in active && procs[p].msgType == 255
          && procs[p].msgBind == if old(procs)[p].msgBind == 0 then 4294967295 else old(procs)[p].msgBind - 1
      ensures forall p :: p in old(sleep) && old(procs)[p].msgType != 255 ==>
        p in sleep && p !in active && procs[p] == old(procs)[p]
      ensures user ==>
        && procs[current].slice == old(procs)[current].slice - 1
        && (if old(procs)[current].slice == 1 then current in expire && current !in active
            else current in active && current !in expire)
    {
      hide Kept, Slices, InsertedAt;
      KnownList(procs, sleep, idle, true);
      if user { KeptMember(procs, active, idle, true, current); }
      DoTimer(user);
    }

    // While p sleeps on a timer that has not run out, nothing of the kind changes that: ticks only
    // count the timer down.
    method SleepThrough(p: Pid, script: seq<Happening>)
      requires Valid() && p in sleep && p in procs && procs[p].msgType == 255 && TickCount(script) < procs[p].msgBind
      modifies this
      ensures Valid() && p in sleep && p in procs && p !in active
      ensures procs[p].msgType == 255 && procs[p].msgBind == old(procs)[p].msgBind - TickCount(script)
    {
      assert script[..0] == [];
      for i := 0 to |script|
        invariant Valid() && p in sleep && p in procs && procs[p].msgType == 255
        invariant procs[p].msgBind == old(procs)[p].msgBind - TickCount(script[..i])
      {
        TicksOneMore(script, i);
        Happen(p, script[i]);
      }
      assert script[..|script|] == script;
    }

    method Happen(p: Pid, what: Happening)
      requires Valid() && p in sleep && p in procs && procs[p].msgType == 255
      requires what.Tick? ==> procs[p].msgBind > 1
      modifies this
      ensures Valid() && p in sleep && p in procs && procs[p].msgType == 255
      ensures procs[p].msgBind == old(procs)[p].msgBind - if what.Tick? then 1 else 0
    {
      hide Kept, Slices, InsertedAt;
      match what
      case Tick(user) => ClockTick(user && current in active);
      case Reschedule => Schedule();
      case Timeout(msec) =>
        if current in active { var _ := ScheduleTimeout(msec % TWO32); }
    }

    // schedule_timeout over a run: its caller sleeps through any events with fewer clock ticks than
    // the number returned, and the tick that completes the number makes it active.
    method TimeoutRun(msec: nat, script: seq<Happening>, user: bool) returns (slice: U32)
      requires Valid() && current in active && msec < TWO32 && TickCount(script) + 1 == TimeoutTicks(msec)
      modifies this
      ensures Valid() && slice == TickCount(script) + 1
      ensures old(current) in active && old(current) !in sleep
    {
      hide Kept, Slices, InsertedAt;
      var p := current;
      slice := ScheduleTimeout(msec);
      SleepThrough(p, script);
      ClockTick(user && current in active);
    }

    // p->time_slice = p->time_slice_full for every expired process.
    method RefillExpired() returns (fresh': Procs)
      requires Valid()
      ensures fresh'.Keys == procs.Keys
      ensures forall p :: p in procs ==>
        fresh'[p] == if p in expire then Renewed(procs[p]) else procs[p]
    {
      KnownList(procs, expire, idle, false);
      fresh' := procs;
      for i := 0 to |expire|
        invariant fresh'.Keys == procs.Keys
        invariant forall p :: p in procs ==>
          fresh'[p] == if p in expire[..i] then Renewed(procs[p]) else procs[p]
      {
        assert expire[i] in expire && expire[i] !in expire[..i];
        assert expire[..i + 1] == expire[..i] + [expire[i]];
        fresh' := fresh'[expire[i] := fresh'[expire[i]].(slice := fresh'[expire[i]].full)];
      }
      assert expire[..|expire|] == expire;
    }

    // The exchange of the active and the expired list: a new epoch begins. The old
    // one was used up to the last tick, except for what the sleepers still have.
    method Exchange()
      requires Valid() && active == [] && expire != []
      modifies this`procs, this`active, this`expire, this`epochBudget, this`userTicks
      ensures Valid() && active == old(expire) && expire == []
      ensures old(userTicks) == old(epochBudget) - old(Slices(procs, sleep))
      ensures userTicks == 0 && epochBudget == Budget()
      ensures procs.Keys == old(procs).Keys
      ensures forall p :: p in procs ==>
        procs[p] == if p in old(expire) then Renewed(old(procs)[p]) else old(procs)[p]
      ensures forall p :: p in old(expire) ==>
        p in procs && procs[p].slice == procs[p].full == old(procs)[p].full && procs[p].prio == old(procs)[p].prio
    {
      hide Kept;
      KnownList(procs, expire, idle, false);
      var fresh' := RefillExpired();
      RefilledLists(procs, fresh', expire, sleep, idle);
      procs := fresh';
      active, expire := expire, active;
      userTicks := 0;
      epochBudget := Budget();
    }

    // schedule, up to the switch of stacks
    method Schedule()
      requires Valid()
      modifies this`procs, this`active, this`expire, this`current, this`needResched, this`epochBudget, this`userTicks
      ensures Valid() && needResched == old(needResched) - {old(current)}
      ensures old(active) != [] || old(expire) == [] ==>
        && procs == old(procs) && active == old(active) && expire == old(expire)
        && epochBudget == old(epochBudget) && userTicks == old(userTicks)
      ensures old(active) == [] && old(expire) != [] ==>
        && active == old(expire) && expire == [] && userTicks == 0
        && old(userTicks) == old(epochBudget) - old(Slices(procs, sleep))
      ensures sleep == old(sleep) && procs.Keys == old(procs).Keys
      ensures forall p :: p in procs ==>
        procs[p] == if old(active) == [] && p in old(expire) then Renewed(old(procs)[p]) else old(procs)[p]
      ensures forall p :: Deep(p) <==> old(Deep(p))
      ensures active == [] ==> current == idle
      ensures active != [] ==> current == active[0] && current in procs
      ensures forall p :: p in active ==> p in procs && procs[current].prio <= procs[p].prio
    {
      hide Slices;
      needResched := needResched - {current};
      if active == [] && expire != [] {
        Exchange();
      }
      current := if active != [] then active[0] else idle;
    }

    // The process that ran has left the active list for its place among the sleepers;
    // if it was the last one there, the expired processes are active again with full
    // slices. The first active process runs, or the idle one.
    twostate predicate Parked(p: Pid, msgType: nat, msgBind: U32)
      reads this
    {
      && p in old(procs) && procs.Keys == old(procs).Keys
      && Known(procs, old(sleep)) && (exists k: nat :: InsertedAt(procs, old(sleep), p, sleep, k))
      && (if Remove(old(active), p) == [] && old(expire) != []
          then active == old(expire) && expire == []
          else active == Remove(old(active), p) && expire == old(expire))
      && procs[p] == old(procs)[p].(msgType := msgType, msgBind := msgBind)
      && (forall x :: x in procs && x != p ==>
        procs[x] == if Remove(old(active), p) == [] && x in old(expire) then Renewed(old(procs)[x]) else old(procs)[x])
      && current == if active == [] then idle else active[0]
    }

    // active_sleep of the running process, by membership
    method Asleep(msgType: nat, msgBind: U32)
      requires Valid() && current in active
      modifies this`procs, this`active, this`sleep
      ensures Valid() && procs == old(procs)[current := old(procs)[current].(msgType := msgType, msgBind := msgBind)]
      ensures active == Remove(old(active), current) && Known(procs, old(sleep))
      ensures exists k: nat :: InsertedAt(procs, old(sleep), current, sleep, k)
      ensures forall p :: p in sleep <==> p in old(sleep) || p == current
      ensures forall p :: Deep(p) <==> old(Deep(p)) || (p == current && msgType == 0)
    {
      hide Kept, Slices, InsertedAt;
      KnownList(procs, sleep, idle, true);
      KnownList(procs, active, idle, true);
      ghost var was := sleep;
      ActiveSleep(current, msgType, msgBind);
      ghost var k: nat :| InsertedAt(procs, was, current, sleep, k);
      InsertedMembers(procs, was, current, sleep, k);
    }

    // kp_sleep
    method KpSleep(msgType: nat, msgBind: U32)
      requires Valid() && current in active
      modifies this
      ensures Valid() && Parked(old(current), msgType, msgBind)
      ensures forall p :: p in sleep <==> p in old(sleep) || p == old(current)
      ensures forall p :: Deep(p) <==> old(Deep(p)) || (p == old(current) && msgType == 0)
    {
      hide Kept, Slices, InsertedAt;
      Asleep(msgType, msgBind);
      ghost var mid := procs;
      ghost var was, p := old(sleep), current;
      Schedule();
      SamePlace(mid, procs, was, p, sleep);
    }

    // schedule_timeout
    method ScheduleTimeout(msec: nat) returns (slice: U32)
      requires Valid() && current in active && msec < TWO32
      modifies this
      ensures Valid() && slice == TimeoutTicks(msec)
      ensures Parked(old(current), MSGTYPE_TIMER, slice)
      ensures forall p :: p in sleep <==> p in old(sleep) || p == old(current)
      ensures forall p :: Deep(p) <==> old(Deep(p))
    {
      hide Kept, Slices, InsertedAt;
      slice := TimeoutTicks(msec);
      Asleep(MSGTYPE_TIMER, slice);
      ghost var mid := procs;
      ghost var was, p := old(sleep), current;
      Schedule();
      SamePlace(mid, procs, was, p, sleep);
    }

    // sleep_on: the current process joins a wait queue and sleeps (kp_sleep with the
    // two message arguments swapped; both are zero).
    method SleepOn(root: seq<Pid>) returns (root': seq<Pid>)
      requires Valid() && current in active && Waiting(root)
      modifies this
      ensures Valid() && root' == [old(current)] + root && Waiting(root')
      ensures Parked(old(current), 0, 0)
      ensures forall p :: p in sleep <==> p in old(sleep) || p == old(current)
      ensures forall p :: Deep(p) <==> old(Deep(p)) || p == old(current)
    {
      hide Kept, Slices, InsertedAt;
      root' := [current] + root;
      assert current !in root;
      assert Distinct(root');
      KpSleep(0, 0);
    }

    // wake_up: every process of the wait queue becomes active, and the queue is empty.
    method WakeUp(root: seq<Pid>) returns (root': seq<Pid>)
      requires Valid() && Waiting(root)
      modifies this`procs, this`active, this`sleep
      ensures Valid() && root' == [] && expire == old(expire)
      ensures procs == old(procs)
      ensures forall p :: p in sleep <==> p in old(sleep) && p !in root
      ensures forall p :: p in active <==> p in old(active) || p in root
      ensures forall p :: Deep(p) <==> old(Deep(p)) && p !in root
    {
      hide Kept, Slices;
      root' := root;
      ghost var i: nat := 0;
      while root' != []
        invariant i <= |root| && root' == root[i..]
        invariant Valid() && procs == old(procs)
        invariant forall p :: p in sleep <==> p in old(sleep) && p !in root[..i]
        invariant forall p :: p in active <==> p in old(active) || p in root[..i]
        decreases |root'|
      {
        assert root[i] in root && root[i] !in root[..i];
        assert root[..i + 1] == root[..i] + [root[i]];
        Wake(root'[0]);
        root' := root'[1..];
        i := i + 1;
      }
      assert root[..i] == root;
    }

    // In every reachable state a process stands in exactly one place of the three lists
    // together, and the idle process in none.
    lemma InOneQueue(p: Pid)
      requires Valid() && p in procs
      ensures multiset(active + expire + sleep)[p] == if p == idle then 0 else 1
    {
      DistinctOnce(active, p);
      DistinctOnce(expire, p);
      DistinctOnce(sleep, p);
      assert multiset(active + expire + sleep) == multiset(active) + multiset(expire) + multiset(sleep);
    }

    // In every reachable state the user ticks of the epoch are within its budget,
    // and with nothing left to run, what was not used belongs to sleepers.
    lemma EpochBound()
      requires Valid()
      ensures userTicks <= epochBudget
      ensures active == [] ==> userTicks == epochBudget - Slices(procs, sleep)
      ensures active == [] && sleep == [] ==> userTicks == epochBudget
    {}

    constructor (idle: Pid, prio: nat, full: nat)
      requires full > 0
      ensures Valid() && this.idle == idle == current && active == [] && expire == [] && sleep == []
      ensures procs == map[idle := Pcb(prio, full, full, 0, 0)]
    {
      this.idle, current := idle, idle;
      procs := map[idle := Pcb(prio, full, full, 0, 0)];
      active, expire, sleep, needResched, ticks := [], [], [], {}, 0;
      epochBudget, userTicks := 0, 0;
    }

    // create_process: the new process starts in the active list with a full slice,
    // which the current epoch gains.
    method CreateProcess(p: Pid, prio: nat, full: nat)
      requires Valid() && p !in procs && full > 0
      modifies this`procs, this`active, this`epochBudget
      ensures Valid() && procs == old(procs)[p := Pcb(prio, full, full, 0, 0)]
      ensures epochBudget == old(epochBudget) + full
      ensures exists k: nat :: InsertedAt(procs, old(active), p, active, k)
      ensures forall x :: Deep(x) <==> old(Deep(x))
    {
      hide Kept, InsertedAt, Slices;
      var b := Pcb(prio, full, full, 0, 0);
      KnownList(procs, active, idle, true);
      KnownList(procs, sleep, idle, true);
      KnownList(procs, expire, idle, false);
      UnknownElsewhere(procs, active, sleep, expire, p);
      OtherSlice(procs, active, idle, true, p, b);
      OtherSlice(procs, sleep, idle, true, p, b);
      OtherSlice(procs, expire, idle, false, p, b);
      procs := procs[p := b];
      ghost var q := active;
      ghost var k;
      active, k := InsertIncre(procs, active, p);
      PutIn(procs, q, idle, true, p, active, k);
      epochBudget := epochBudget + full;
    }
  }

  // What may happen while a process sleeps.
  datatype Happening = Tick(user: bool) | Reschedule | Timeout(msec: nat)

  function TickCount(script: seq<Happening>): nat {
    if script == [] then 0
    else TickCount(script[..|script| - 1]) + if script[|script| - 1].Tick? then 1 else 0
  }

  lemma TicksOneMore(script: seq<Happening>, i: nat)
    requires i < |script|
    ensures TickCount(script[..i + 1]) == TickCount(script[..i]) + if script[i].Tick? then 1 else 0
    ensures TickCount(script[..i + 1]) <= TickCount(script)
  {
    assert script[..i + 1][..i] == script[..i];
    TicksGrow(script, i + 1);
  }

  lemma {:induction false} TicksGrow(script: seq<Happening>, i: nat)
    requires i <= |script|
    ensures TickCount(script[..i]) <= TickCount(script)
  {
    if i == |script| {
      assert script[..i] == script;
    } else {
      TicksGrow(script[..|script| - 1], i);
      assert script[..|script| - 1][..i] == script[..i];
    }
  }

  // (msec - 1) / 10 + 1 in unsigned arithmetic: the clock ticks every 10 ms.
  function TimeoutTicks(msec: nat): (r: U32) {
    (msec - 1) % TWO32 / 10 + 1
  }

  // The ticks are just enough to last msec milliseconds; but asking for zero
  // milliseconds sleeps for 49 days.
  lemma TimeoutIsLeast(msec: nat)
    requires msec < TWO32
    ensures (10 * (TimeoutTicks(msec) - 1) < msec <= 10 * TimeoutTicks(msec)) <==> msec > 0
    ensures msec == 0 ==> TimeoutTicks(msec) == 429496730
  {}

  lemma UnknownElsewhere(procs: Procs, a: seq<Pid>, s: seq<Pid>, e: seq<Pid>, p: Pid)
    requires Known(procs, a) && Known(procs, s) && Known(procs, e) && p !in procs
    ensures p !in a && p !in s && p !in e
  {}

  // Changes that leave every prio alone leave places in a list alone.
  lemma SamePlace(procs: Procs, procs': Procs, q: seq<Pid>, p: Pid, r: seq<Pid>)
    requires Known(procs, q) && p in procs && procs'.Keys == procs.Keys
    requires forall x :: x in procs ==> procs'[x].prio == procs[x].prio
    requires exists k: nat :: InsertedAt(procs, q, p, r, k)
    ensures Known(procs', q) && exists k: nat :: InsertedAt(procs', q, p, r, k)
  {
    var k: nat :| InsertedAt(procs, q, p, r, k);
    assert InsertedAt(procs', q, p, r, k);
  }

  lemma RefilledLists(procs: Procs, procs': Procs, expire: seq<Pid>, sleep: seq<Pid>, idle: Pid)
    requires Kept(procs, expire, idle, false) && Kept(procs, sleep, idle, true)
    requires procs'.Keys == procs.Keys && forall p :: p in sleep ==> p !in expire
    requires forall p :: p in procs ==> procs[p].full > 0
    requires forall p :: p in procs ==>
      procs'[p] == if p in expire then Renewed(procs[p]) else procs[p]
    ensures Kept(procs', expire, idle, true) && Kept(procs', sleep, idle, true) && Kept(procs', [], idle, false)
    ensures Known(procs', expire) && Known(procs', sleep) && Slices(procs', sleep) == Slices(procs, sleep)
  {
    assert forall i :: 0 <= i < |sleep| ==> sleep[i] in sleep;
    assert forall i :: 0 <= i < |expire| ==> expire[i] in expire;
    SlicesFrame(procs, procs', sleep);
  }

  // p is the running process and this was its last tick.
  predicate Expires(procs: Procs, current: Pid, p: Pid) {
    p == current && p in procs && procs[p].slice == 1
  }

  // A process block at the exchange.
  function Renewed(b: Pcb): Pcb {
    b.(slice := b.full)
  }

  function Charged(b: Pcb): Pcb {
    b.(slice := if b.slice > 0 then b.slice - 1 else 0)
  }

  lemma Expired(procs: Procs, procs': Procs, q: seq<Pid>, p: Pid, r: seq<Pid>)
    requires Known(procs, q) && procs'.Keys == procs.Keys && p in procs
    requires exists k: nat :: InsertedAt(procs', q, p, r, k)
    ensures forall x :: x in r <==> x in q || x == p
  {
    var k: nat :| InsertedAt(procs', q, p, r, k);
    InsertedMembers(procs', q, p, r, k);
  }

  predicate Wakes(b: Pcb) {
    b.msgType == MSGTYPE_TIMER && (b.msgBind - 1) % TWO32 == 0
  }

  ghost predicate SomeoneWakes(procs: Procs, q: seq<Pid>) {
    exists p :: p in q && p in procs && Wakes(procs[p])
  }

  lemma WakesOneMore(procs: Procs, q: seq<Pid>, p: Pid)
    requires p in procs
    ensures SomeoneWakes(procs, q + [p]) <==> SomeoneWakes(procs, q) || Wakes(procs[p])
  {
    if SomeoneWakes(procs, q) {
      var x :| x in q && x in procs && Wakes(procs[x]);
      assert x in q + [p];
    }
    if Wakes(procs[p]) { assert p in q + [p]; }
  }

  // A sleeping process block after one clock tick.
  function Ticked(b: Pcb): Pcb {
    if b.msgType != MSGTYPE_TIMER then b
    else if Wakes(b) then b.(msgType := 0, msgBind := 0)
    else b.(msgBind := (b.msgBind - 1) % TWO32)
  }

  lemma KnownList(procs: Procs, q: seq<Pid>, idle: Pid, positive: bool)
    requires Kept(procs, q, idle, positive)
    ensures Known(procs, q) && forall p :: p in q ==> p in procs
  {}

  lemma NotYetSeen(procs: Procs, q: seq<Pid>, idle: Pid, i: nat)
    requires Kept(procs, q, idle, true) && i < |q|
    ensures q[i] in q && q[i] !in q[..i] && q[i] in procs
    ensures q[..i + 1] == q[..i] + [q[i]]
  {}
}
