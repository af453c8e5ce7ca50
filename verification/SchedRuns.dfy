/**
 * Whole runs of the scheduler: bounded waiting, exact sleeping, and what mutexes and
 * semaphores hold in every reachable state.
 */
module SchedRuns {
  import opened Options
  import opened Sync
  import opened Sched
  import opened SchedProofs

  // ---------------------------------------------------------------- bounded waiting

  /** The ticks that the tasks ahead of t still have. */
  function TicksAhead(s: State, xs: seq<Task>, t: Task): int
    decreases |xs|
  {
    if |xs| == 0 || xs[0] == t then 0 else Slice(s, xs[0]) + TicksAhead(s, xs[1..], t)
  }

  /** How many tasks are ahead of t. */
  function Ahead(xs: seq<Task>, t: Task): nat
    decreases |xs|
  {
    if |xs| == 0 || xs[0] == t then 0 else 1 + Ahead(xs[1..], t)
  }

  lemma {:induction false} TicksAheadBound(s: State, xs: seq<Task>, t: Task)
    requires forall u: Task :: 1 <= Slice(s, u) <= SLICE
    ensures Ahead(xs, t) <= TicksAhead(s, xs, t) <= SLICE * Ahead(xs, t)
    decreases |xs|
  {
    hide Slice;
    if |xs| > 0 && xs[0] != t {
      TicksAheadBound(s, xs[1..], t);
    }
  }

  /** Tasks behind t do not count, and neither do slices of tasks not in the list. */
  lemma {:induction false} TicksAheadKept(s: State, s': State, xs: seq<Task>, ys: seq<Task>, t: Task)
    requires t in xs && forall u :: u in xs && u != t ==> Slice(s', u) == Slice(s, u)
    ensures TicksAhead(s', xs + ys, t) == TicksAhead(s, xs, t)
    decreases |xs|
  {
    hide Slice;
    assert (xs + ys)[0] == xs[0];
    if xs[0] != t {
      assert (xs + ys)[1..] == xs[1..] + ys;
      TicksAheadKept(s, s', xs[1..], ys, t);
    }
  }

  /**
   * What a step does to the ready list: the head may leave, and tasks may be appended.
   * Only the head's slice can change, and while the head stays it can only go down.
   */
  ghost predicate ReadyEffect(s: State, s': State, a: Step, dropped: bool, suffix: seq<Task>) {
    && (dropped ==> |s.ready| > 0)
    && s'.ready == (if dropped then s.ready[1..] else s.ready) + suffix
    && (forall u: Task :: u != s.curr ==> Slice(s', u) == Slice(s, u))
    && (!dropped ==> Slice(s', s.curr) <= Slice(s, s.curr) - if a.DoTick? then 1 else 0)
  }

  lemma TickEffect(s: State, place: map<Task, Place>) returns (dropped: bool, suffix: seq<Task>)
    requires Inv(s, place) && s.curr != IDLE
    ensures ReadyEffect(s, Tick(s), DoTick, dropped, suffix)
  {
    hide Placed;
    CurrIsReady(s, place);
    WithoutHead(s.ready);
    dropped, suffix := false, [];
    if Slice(s, s.curr) == 1 {
      dropped, suffix := true, [s.curr];
    }
  }

  lemma BlockEffect(s: State, place: map<Task, Place>, t: State, a: Step)
    requires Inv(s, place) && s.curr != IDLE && !a.DoTick?
    requires t.ready == s.ready && t.slice == s.slice
    ensures SetBlock(t, s.curr).ready == s.ready[1..]
  {
  }

  lemma StepEffect(s: State, place: map<Task, Place>, a: Step) returns (dropped: bool, suffix: seq<Task>)
    requires Inv(s, place) && Enabled(s, a) && s.curr != IDLE
    ensures ReadyEffect(s, Next(s, a), a, dropped, suffix)
  {
    hide Placed, Without, Staying, Woken, Counters;
    CurrIsReady(s, place);
    dropped, suffix := false, [];
    match a
    case DoTick => dropped, suffix := TickEffect(s, place);
    case DoScan => suffix := Woken(s, s.sleep);
    case DoYield =>
      BlockEffect(s, place, s, a);
      if |s.ready| > 1 {
        dropped, suffix := true, [s.curr];
      }
    case DoSleep(ms) =>
      BlockEffect(s, place, s, a);
      dropped := true;
    case DoExit =>
      BlockEffect(s, place, s.(exited := s.exited + {s.curr}), a);
      dropped := true;
    case DoStart(x) => suffix := [x];
    case DoLock(k) =>
      BlockEffect(s, place, s.(mutexes := s.mutexes[k := LockMutex(s.mutexes[k], s.curr)]), a);
      dropped := s.mutexes[k].count != 0 && s.mutexes[k].owner != Some(s.curr);
    case DoUnlock(k) =>
      var m := s.mutexes[k];
      if m.owner == Some(s.curr) && m.count == 1 && |m.waiters| > 0 {
        WaiterIsTask(s, place, m.waiters[0], InMutex(k));
        suffix := [m.waiters[0]];
      }
    case DoWait(k) =>
      BlockEffect(s, place, s.(sems := s.sems[k := CallSem(s.sems[k], Wait(s.curr))]), a);
      dropped := s.sems[k].count <= 0;
    case DoNotify(k) =>
      if |s.sems[k].waiters| > 0 {
        WaiterIsTask(s, place, s.sems[k].waiters[0], InSem(k));
        suffix := [s.sems[k].waiters[0]];
      }
  }

  /** A waiting task stays in line: no step adds to the ticks ahead of it, and each tick takes one away. */
  lemma StepShortensWait(s: State, place: map<Task, Place>, a: Step, t: Task)
    requires Inv(s, place) && Enabled(s, a) && t in s.ready && t != s.curr
    ensures var s' := Next(s, a);
            t in s'.ready && TicksAhead(s', s'.ready, t) <= TicksAhead(s, s.ready, t) - if a.DoTick? then 1 else 0
  {
    hide Placed, Next;
    CurrIsReady(s, place);
    var head, rest := s.ready[0], s.ready[1..];
    var dropped, suffix := StepEffect(s, place, a);
    var s' := Next(s, a);
    assert s.ready == [head] + rest && t in rest;
    assert NoDup(ListAt(s, InReady)) by {
      ReadyNoDup(s, place);
    }
    assert head !in rest;
    TicksAheadKept(s, s', rest, suffix, t);
    if !dropped {
      assert s'.ready[0] == head && s'.ready[1..] == rest + suffix;
    }
  }

  lemma ReadyNoDup(s: State, place: map<Task, Place>)
    requires Inv(s, place)
    ensures NoDup(ListAt(s, InReady))
  {
  }

  function Ticks(steps: seq<Step>): nat
    decreases |steps|
  {
    if |steps| == 0 then 0 else (if steps[0].DoTick? then 1 else 0) + Ticks(steps[1..])
  }

  /** t runs at some point of the run. */
  ghost predicate GetsToRun(s: State, steps: seq<Step>, t: Task)
    requires CanRun(s, steps)
    decreases |steps|
  {
    s.curr == t || (|steps| > 0 && GetsToRun(Next(s, steps[0]), steps[1..], t))
  }

  lemma {:induction false} RunsWithinTicks(s: State, place: map<Task, Place>, steps: seq<Step>, t: Task)
    requires Inv(s, place) && CanRun(s, steps) && t in s.ready
    requires Ticks(steps) >= TicksAhead(s, s.ready, t)
    ensures GetsToRun(s, steps, t)
    decreases |steps|
  {
    hide Next, Placed;
    if s.curr != t {
      CurrIsReady(s, place);
      TicksAheadBound(s, s.ready, t);
      StepShortensWait(s, place, steps[0], t);
      var place1 := StepKeepsInv(s, place, steps[0]);
      RunsWithinTicks(Next(s, steps[0]), place1, steps[1..], t);
    }
  }

  /**
   * Bounded waiting: with k tasks ahead of it in the ready list, a task runs within 10 * k
   * ticks, whatever mix of yields, sleeps, blocks, wakeups, starts and exits happens.
   */
  lemma BoundedWaiting(s: State, place: map<Task, Place>, steps: seq<Step>, t: Task)
    requires Inv(s, place) && CanRun(s, steps) && t in s.ready
    requires Ticks(steps) >= SLICE * Ahead(s.ready, t)
    ensures GetsToRun(s, steps, t)
  {
    hide Placed, CanRun, GetsToRun;
    TicksAheadBound(s, s.ready, t);
    RunsWithinTicks(s, place, steps, t);
  }

  // ---------------------------------------------------------------- sleeping

  function Scans(steps: seq<Step>): nat
    decreases |steps|
  {
    if |steps| == 0 then 0 else (if steps[0].DoScan? then 1 else 0) + Scans(steps[1..])
  }

  /** Only a scan touches a sleeper. */
  lemma SleeperStep(s: State, place: map<Task, Place>, a: Step, t: Task)
    requires Inv(s, place) && Enabled(s, a) && t in s.sleep
    ensures var s' := Next(s, a);
            var n := SleepTicks(s, t);
            if a.DoScan? && n == 1 then t in s'.ready && t !in s'.sleep
            else t in s'.sleep && SleepTicks(s', t) == if a.DoScan? then n - 1 else n
  {
    hide Placed, Staying, Woken, Counters, Without;
    if a.DoScan? {
      ScanLists(s, place);
      ScannedTicks(s, t);
    } else {
      CurrIsReady(s, place);
      SleeperIsNotCurr(s, place, t);
    }
  }

  lemma SleeperIsNotCurr(s: State, place: map<Task, Place>, t: Task)
    requires Inv(s, place) && t in s.sleep
    ensures t != s.curr
  {
    CurrIsReady(s, place);
    OneList(s, place, t, InSleep, InReady);
  }

  /** After fewer scans than its ticks a sleeper still sleeps, with that many fewer ticks. */
  lemma {:induction false} StillAsleep(s: State, place: map<Task, Place>, steps: seq<Step>, t: Task)
    requires Inv(s, place) && CanRun(s, steps) && t in s.sleep && Scans(steps) < SleepTicks(s, t)
    ensures var u := Run(s, steps);
            t in u.sleep && SleepTicks(u, t) == SleepTicks(s, t) - Scans(steps)
    decreases |steps|
  {
    hide Next, Placed, Counters, SleepTicks;
    if |steps| > 0 {
      SleeperStep(s, place, steps[0], t);
      var place1 := StepKeepsInv(s, place, steps[0]);
      StillAsleep(Next(s, steps[0]), place1, steps[1..], t);
    }
  }

  lemma {:induction false} RunSplits(s: State, a: seq<Step>, b: seq<Step>)
    requires CanRun(s, a + b)
    ensures CanRun(s, a) && CanRun(Run(s, a), b) && Run(s, a + b) == Run(Run(s, a), b)
    decreases |a|
  {
    hide Next;
    if |a| == 0 {
      assert a + b == b;
    } else {
      assert (a + b)[1..] == a[1..] + b;
      RunSplits(Next(s, a[0]), a[1..], b);
    }
  }

  /**
   * sys_sleep(ms) with n = ms / 10 ticks: whatever else happens, the caller sleeps through
   * the first n - 1 scans and is made ready by exactly the n-th.
   */
  lemma SleepIsExact(s: State, place: map<Task, Place>, ms: nat, before: seq<Step>)
    requires Inv(s, place) && s.curr != IDLE && ms >= TICK_MS
    requires CanRun(Sleep(s, ms), before + [DoScan]) && Scans(before) == ms / TICK_MS - 1
    ensures CanRun(Sleep(s, ms), before) && s.curr in Run(Sleep(s, ms), before).sleep
    ensures var u := Run(Sleep(s, ms), before + [DoScan]); s.curr in u.ready && s.curr !in u.sleep
  {
    hide Next, Placed, Counters;
    var t := Sleep(s, ms);
    assert s.curr in t.sleep && SleepTicks(t, s.curr) == ms / TICK_MS;
    var place1 := SleepInv(s, place, ms);
    RunSplits(t, before, [DoScan]);
    StillAsleep(t, place1, before, s.curr);
    var v := Run(t, before);
    var place2 := RunKeepsInv(t, place1, before);
    SleeperStep(v, place2, DoScan, s.curr);
    assert [DoScan][1..] == [];
    assert Run(v, [DoScan]) == Next(v, DoScan);
  }

  // ---------------------------------------------------------------- mutexes in a run

  /** The calls on mutex k made by one step. */
  function StepMutexCalls(s: State, a: Step, k: nat): seq<MutexCall> {
    match a
    case DoLock(j) => if j == k then [Lock(s.curr)] else []
    case DoUnlock(j) => if j == k then [Unlock(s.curr)] else []
    case _ => []
  }

  /** The history of mutex k along a run. */
  ghost function MutexCalls(s: State, steps: seq<Step>, k: nat): seq<MutexCall>
    requires CanRun(s, steps)
    decreases |steps|
  {
    if |steps| == 0 then [] else StepMutexCalls(s, steps[0], k) + MutexCalls(Next(s, steps[0]), steps[1..], k)
  }

  ghost predicate MutexHistory(s: State, k: nat, calls: seq<MutexCall>) {
    k < |s.mutexes| && Possible(calls) && s.mutexes[k] == MutexAfter(calls)
  }

  lemma MutexStep(s: State, place: map<Task, Place>, a: Step, k: nat, calls: seq<MutexCall>)
    requires Inv(s, place) && Enabled(s, a) && MutexHistory(s, k, calls)
    ensures MutexHistory(Next(s, a), k, calls + StepMutexCalls(s, a, k))
  {
    hide Placed, Counters, Without, Staying, Woken;
    var extra := StepMutexCalls(s, a, k);
    if |extra| == 0 {
      assert calls + extra == calls;
    } else {
      assert (calls + extra)[..|calls|] == calls;
      CurrIsReady(s, place);
      OneList(s, place, s.curr, InReady, InMutex(k));
    }
  }

  /** In every reachable state each mutex is what its history says; MutexFollowsHistory spells that out. */
  lemma {:induction false} RunMutex(s: State, place: map<Task, Place>, steps: seq<Step>, k: nat, calls: seq<MutexCall>)
    requires Inv(s, place) && CanRun(s, steps) && MutexHistory(s, k, calls)
    ensures MutexHistory(Run(s, steps), k, calls + MutexCalls(s, steps, k))
    decreases |steps|
  {
    hide Next, Placed, Counters, MutexHistory, StepMutexCalls;
    if |steps| == 0 {
      assert calls + [] == calls;
    } else {
      MutexStep(s, place, steps[0], k, calls);
      var place1 := StepKeepsInv(s, place, steps[0]);
      var now := StepMutexCalls(s, steps[0], k);
      RunMutex(Next(s, steps[0]), place1, steps[1..], k, calls + now);
      assert calls + now + MutexCalls(Next(s, steps[0]), steps[1..], k) == calls + MutexCalls(s, steps, k);
    }
  }

  /** A task blocked in mutex_lock becomes ready only as the owner, and only when it was first in line. */
  lemma LockReturnsAsOwner(s: State, place: map<Task, Place>, a: Step, k: nat, calls: seq<MutexCall>, t: Task)
    requires Inv(s, place) && Enabled(s, a) && MutexHistory(s, k, calls)
    requires t in s.mutexes[k].waiters && t !in Next(s, a).mutexes[k].waiters
    ensures var m := Next(s, a).mutexes[k]; m.owner == Some(t) && m.count == 1
    ensures s.mutexes[k].waiters[0] == t && t in Next(s, a).ready && Line(s.mutexes[k])[1] == t
  {
    hide Placed, Counters, Without, Staying, Woken;
    MutexFollowsHistory(calls);
    CurrIsReady(s, place);
    var m := s.mutexes[k];
    WaiterIsTask(s, place, t, InMutex(k));
    if a == DoUnlock(k) {
      WaiterLeavesAsOwner(m, Unlock(s.curr), t);
    }
  }

  // ---------------------------------------------------------------- semaphores in a run

  function StepSemCalls(s: State, a: Step, k: nat): seq<SemCall> {
    match a
    case DoWait(j) => if j == k then [Wait(s.curr)] else []
    case DoNotify(j) => if j == k then [Notify] else []
    case _ => []
  }

  ghost function SemCalls(s: State, steps: seq<Step>, k: nat): seq<SemCall>
    requires CanRun(s, steps)
    decreases |steps|
  {
    if |steps| == 0 then [] else StepSemCalls(s, steps[0], k) + SemCalls(Next(s, steps[0]), steps[1..], k)
  }

  lemma SemStep(s: State, a: Step, k: nat, init: int, calls: seq<SemCall>)
    requires Enabled(s, a) && k < |s.sems| && s.sems[k] == SemAfter(init, calls)
    ensures k < |Next(s, a).sems| && Next(s, a).sems[k] == SemAfter(init, calls + StepSemCalls(s, a, k))
  {
    hide Without, Staying, Woken;
    var extra := StepSemCalls(s, a, k);
    if |extra| == 0 {
      assert calls + extra == calls;
    } else {
      assert (calls + extra)[..|calls|] == calls;
    }
  }

  /** In every reachable state each semaphore is what its history says; SemFollowsHistory spells that out. */
  lemma {:induction false} RunSem(s: State, steps: seq<Step>, k: nat, init: int, calls: seq<SemCall>)
    requires CanRun(s, steps) && k < |s.sems| && s.sems[k] == SemAfter(init, calls)
    ensures var u := Run(s, steps);
            k < |u.sems| && u.sems[k] == SemAfter(init, calls + SemCalls(s, steps, k))
    decreases |steps|
  {
    hide Next, StepSemCalls, SemAfter;
    if |steps| == 0 {
      assert calls + [] == calls;
    } else {
      SemStep(s, steps[0], k, init, calls);
      var now := StepSemCalls(s, steps[0], k);
      RunSem(Next(s, steps[0]), steps[1..], k, init, calls + now);
      assert calls + now + SemCalls(Next(s, steps[0]), steps[1..], k) == calls + SemCalls(s, steps, k);
    }
  }

  /** A granted waiter is the oldest one, and it is ready at once. */
  lemma NotifyWakesOldest(s: State, place: map<Task, Place>, k: nat)
    requires Inv(s, place) && k < |s.sems| && |s.sems[k].waiters| > 0
    ensures var s' := NotifyStep(s, k);
            var t := s.sems[k].waiters[0];
            t in s'.ready && t !in s'.sems[k].waiters && s'.sems[k].count == s.sems[k].count
  {
    hide Placed;
    var t := s.sems[k].waiters[0];
    WaiterIsTask(s, place, t, InSem(k));
    assert NoDup(ListAt(s, InSem(k))) by {
      ListNoDup(s, place, InSem(k));
    }
  }

  lemma ListNoDup(s: State, place: map<Task, Place>, p: Place)
    requires Inv(s, place)
    ensures NoDup(ListAt(s, p))
  {
  }
}
