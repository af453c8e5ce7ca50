/**
 * What each kernel entry does to the running system, said outright: the whole new state
 * in terms of the lists and counters before it. From that, how long a task keeps the
 * processor (src/kernel/task.c:244-349 and 673-678, src/kernel/include/task.h:12).
 */
module SchedSteps {
  import opened Options
  import opened Sync
  import opened Sched
  import opened SchedProofs
  import opened SchedRuns

  /** Who runs when the head of the ready list leaves: the second task, or the idle task 0. */
  function Second(s: State): Task {
    if |s.ready| > 1 then s.ready[1] else 0
  }

  // ---------------------------------------------------------------- the entries

  /** sys_yield: the caller goes to the end of the ready list and the next task runs, unless the caller is alone. */
  lemma YieldRotates(s: State, place: map<Task, Place>)
    requires Inv(s, place) && s.curr != IDLE
    ensures Next(s, DoYield) == if |s.ready| > 1 then s.(ready := s.ready[1..] + [s.curr], curr := s.ready[1]) else s
  {
    CurrIsReady(s, place);
  }

  /** The timer: one tick of ten is used up; with the last one the task gets ten again and goes to the end. */
  lemma TickCounts(s: State, place: map<Task, Place>)
    requires Inv(s, place)
    ensures 1 <= Slice(s, s.curr) <= 10
    ensures var n := Slice(s, s.curr);
            Next(s, DoTick) ==
              if n > 1 then s.(slice := s.slice[s.curr := n - 1])
              else if |s.ready| > 1 then s.(slice := s.slice[s.curr := 10], ready := s.ready[1..] + [s.curr], curr := s.ready[1])
              else s.(slice := s.slice[s.curr := 10])
  {
    CurrIsReady(s, place);
    if s.curr != IDLE && |s.ready| == 1 {
      assert s.ready == [s.curr];
    }
  }

  /** sys_sleep: from one tick on the caller joins the end of the sleep list with its count, below that no list. */
  lemma SleepQueues(s: State, place: map<Task, Place>, ms: nat)
    requires Inv(s, place) && s.curr != IDLE
    ensures Next(s, DoSleep(ms)) ==
              if ms < 10 then s.(ready := s.ready[1..], curr := Second(s))
              else s.(ready := s.ready[1..], curr := Second(s), sleep := s.sleep + [s.curr], sleepTicks := s.sleepTicks[s.curr := ms / 10])
  {
    CurrIsReady(s, place);
  }

  /** sys_exit: the caller is a zombie, and the next task runs. */
  lemma ExitLeaves(s: State, place: map<Task, Place>)
    requires Inv(s, place) && s.curr != IDLE
    ensures Next(s, DoExit) == s.(ready := s.ready[1..], curr := Second(s), exited := s.exited + {s.curr})
  {
    CurrIsReady(s, place);
  }

  /** task_start: the new task is live and last in line, and the caller keeps running. */
  lemma StartAppends(s: State, place: map<Task, Place>, t: Task)
    requires Inv(s, place) && Enabled(s, DoStart(t))
    ensures Next(s, DoStart(t)) == s.(ready := s.ready + [t], started := s.started + {t})
  {
  }

  /** mutex_lock: taken, taken once more, or waited for at the end of the line. */
  lemma LockTakesOrWaits(s: State, place: map<Task, Place>, k: nat)
    requires Inv(s, place) && Enabled(s, DoLock(k))
    ensures var m := s.mutexes[k];
            Next(s, DoLock(k)) ==
              if m.count == 0 then s.(mutexes := s.mutexes[k := Mutex(Some(s.curr), 1, m.waiters)])
              else if m.owner == Some(s.curr) then s.(mutexes := s.mutexes[k := Mutex(m.owner, m.count + 1, m.waiters)])
              else s.(mutexes := s.mutexes[k := Mutex(m.owner, m.count, m.waiters + [s.curr])], ready := s.ready[1..], curr := Second(s))
  {
    CurrIsReady(s, place);
  }

  /** mutex_unlock: one level less, or free, or handed to the first in line, who becomes ready while the caller keeps running. */
  lemma UnlockHandsOver(s: State, place: map<Task, Place>, k: nat)
    requires Inv(s, place) && Enabled(s, DoUnlock(k)) && (s.mutexes[k].owner.Some? ==> s.mutexes[k].count > 0)
    ensures var m := s.mutexes[k];
            Next(s, DoUnlock(k)) ==
              if m.owner != Some(s.curr) then s
              else if m.count > 1 then s.(mutexes := s.mutexes[k := Mutex(m.owner, m.count - 1, m.waiters)])
              else if m.waiters == [] then s.(mutexes := s.mutexes[k := Mutex(None, 0, [])])
              else s.(mutexes := s.mutexes[k := Mutex(Some(m.waiters[0]), 1, m.waiters[1..])], ready := s.ready + [m.waiters[0]])
  {
    CurrIsReady(s, place);
    var m := s.mutexes[k];
    if m.owner == Some(s.curr) && m.count == 1 && m.waiters != [] {
      WaiterIsTask(s, place, m.waiters[0], InMutex(k));
    }
  }

  /** sem_wait: a unit is taken, or the caller waits at the end of the line. */
  lemma WaitTakesOrWaits(s: State, place: map<Task, Place>, k: nat)
    requires Inv(s, place) && Enabled(s, DoWait(k))
    ensures var m := s.sems[k];
            Next(s, DoWait(k)) ==
              if m.count > 0 then s.(sems := s.sems[k := Sem(m.count - 1, m.waiters)])
              else s.(sems := s.sems[k := Sem(m.count, m.waiters + [s.curr])], ready := s.ready[1..], curr := Second(s))
  {
    CurrIsReady(s, place);
  }

  /** sem_notify: the first in line becomes ready, and runs at once only if nobody else does; with no line the count grows. */
  lemma NotifyGrants(s: State, place: map<Task, Place>, k: nat)
    requires Inv(s, place) && Enabled(s, DoNotify(k))
    ensures var m := s.sems[k];
            Next(s, DoNotify(k)) ==
              if m.waiters == [] then s.(sems := s.sems[k := Sem(m.count + 1, [])])
              else s.(sems := s.sems[k := Sem(m.count, m.waiters[1..])], ready := s.ready + [m.waiters[0]],
                      curr := if s.ready == [] then m.waiters[0] else s.curr)
  {
    CurrIsReady(s, place);
    if s.sems[k].waiters != [] {
      WaiterIsTask(s, place, s.sems[k].waiters[0], InSem(k));
    }
  }

  // ---------------------------------------------------------------- the sleep scan

  /** Positions of a list, in order. */
  ghost predicate Positions(ps: seq<nat>, n: nat) {
    (forall i :: 0 <= i < |ps| ==> ps[i] < n) && forall i, j :: 0 <= i < j < |ps| ==> ps[i] < ps[j]
  }

  function Pick(xs: seq<Task>, ps: seq<nat>): (r: seq<Task>)
    requires forall i :: 0 <= i < |ps| ==> ps[i] < |xs|
    ensures |r| == |ps| && forall i :: 0 <= i < |ps| ==> r[i] == xs[ps[i]]
  {
    seq(|ps|, i requires 0 <= i < |ps| => xs[ps[i]])
  }

  /** The positions of xs from k on whose sleepers are due, or not due, as `due` says. */
  function Due(s: State, xs: seq<Task>, k: nat, due: bool): (ps: seq<nat>)
    requires k <= |xs|
    ensures Positions(ps, |xs|) && forall i :: 0 <= i < |ps| ==> k <= ps[i]
    ensures forall p: nat :: k <= p < |xs| ==> (p in ps <==> (SleepTicks(s, xs[p]) == 1) == due)
    decreases |xs| - k
  {
    if k == |xs| then [] else (if (SleepTicks(s, xs[k]) == 1) == due then [k] else []) + Due(s, xs, k + 1, due)
  }

  lemma PickFirst(xs: seq<Task>, k: nat, ps: seq<nat>)
    requires k < |xs| && forall i :: 0 <= i < |ps| ==> ps[i] < |xs|
    ensures Pick(xs, [k] + ps) == [xs[k]] + Pick(xs, ps)
  {
    assert forall i :: 0 < i <= |ps| ==> ([k] + ps)[i] == ps[i - 1];
  }

  lemma {:induction false} PickedInOrder(s: State, xs: seq<Task>, k: nat)
    requires k <= |xs|
    ensures Woken(s, xs[k..]) == Pick(xs, Due(s, xs, k, true)) && Staying(s, xs[k..]) == Pick(xs, Due(s, xs, k, false))
    decreases |xs| - k
  {
    hide SleepTicks, Pick;
    if k < |xs| {
      assert xs[k..][1..] == xs[k + 1..] && xs[k..][0] == xs[k];
      PickedInOrder(s, xs, k + 1);
      var due := SleepTicks(s, xs[k]) == 1;
      PickFirst(xs, k, Due(s, xs, k + 1, due));
      assert Due(s, xs, k, due) == [k] + Due(s, xs, k + 1, due) && Due(s, xs, k, !due) == Due(s, xs, k + 1, !due);
    }
  }

  /** The scan counts every sleeper down by one, and nobody else. */
  lemma ScanCounts(s: State, u: Task)
    ensures SleepTicks(Next(s, DoScan), u) == SleepTicks(s, u) - if u in s.sleep then 1 else 0
  {
    hide Staying, Woken;
  }

  /** Who runs after the scan: the running task, or the first of the woken if nobody was. */
  lemma ScanCurrent(s: State, place: map<Task, Place>)
    requires Inv(s, place)
    ensures Next(s, DoScan).curr == if s.curr != IDLE then s.curr else if Woken(s, s.sleep) == [] then IDLE else Woken(s, s.sleep)[0]
  {
    hide Staying, Woken, Placed;
    CurrIsReady(s, place);
  }

  /**
   * The sleep scan. `due` are the positions of the sleepers with one tick left, `rest` the
   * others: the due ones join the ready list in their order, the rest stay in theirs, and
   * every sleeper's count is one less.
   */
  lemma ScanWakesInOrder(s: State, place: map<Task, Place>) returns (due: seq<nat>, rest: seq<nat>)
    requires Inv(s, place)
    ensures Positions(due, |s.sleep|) && Positions(rest, |s.sleep|)
    ensures forall p: nat :: p < |s.sleep| ==> (p in due <==> SleepTicks(s, s.sleep[p]) == 1) && (p in rest <==> SleepTicks(s, s.sleep[p]) != 1)
    ensures var t := Next(s, DoScan);
            && t.ready == s.ready + Pick(s.sleep, due) && t.sleep == Pick(s.sleep, rest)
            && (forall u: Task :: SleepTicks(t, u) == SleepTicks(s, u) - if u in s.sleep then 1 else 0)
            && t.curr == (if s.curr != IDLE then s.curr else if |due| > 0 then s.sleep[due[0]] else IDLE)
            && t.slice == s.slice && t.mutexes == s.mutexes && t.sems == s.sems && t.started == s.started && t.exited == s.exited
  {
    hide Inv, Woken, Staying, Due, SleepTicks;
    due, rest := Due(s, s.sleep, 0, true), Due(s, s.sleep, 0, false);
    assert s.sleep[0..] == s.sleep;
    PickedInOrder(s, s.sleep, 0);
    ScanCurrent(s, place);
    forall u: Task ensures SleepTicks(Next(s, DoScan), u) == SleepTicks(s, u) - if u in s.sleep then 1 else 0 {
      ScanCounts(s, u);
    }
  }

  // ---------------------------------------------------------------- a turn on the processor

  /** The running task leaves the processor of its own: it yields, sleeps, exits, or blocks. */
  predicate GivesUp(s: State, a: Step)
    requires Enabled(s, a)
  {
    match a
    case DoYield => |s.ready| > 1
    case DoSleep(_) => true
    case DoExit => true
    case DoLock(k) => s.mutexes[k].count != 0 && s.mutexes[k].owner != Some(s.curr)
    case DoWait(k) => s.sems[k].count <= 0
    case _ => false
  }

  /** Whatever else happens, the running task keeps running until it gives up or its last tick is used. */
  lemma StepKeepsTurn(s: State, place: map<Task, Place>, a: Step)
    requires Inv(s, place) && Enabled(s, a) && s.curr != IDLE && !GivesUp(s, a) && (a.DoTick? ==> Slice(s, s.curr) > 1)
    ensures var t := Next(s, a);
            t.curr == s.curr && Slice(t, s.curr) == Slice(s, s.curr) - if a.DoTick? then 1 else 0
  {
    hide Placed, Without, Staying, Woken, LockMutex, UnlockMutex, CallSem;
    CurrIsReady(s, place);
  }

  /** Only the running task's slice changes, and only in a tick. */
  lemma StepKeepsSlice(s: State, a: Step, t: Task)
    requires Enabled(s, a) && t != s.curr
    ensures Slice(Next(s, a), t) == Slice(s, t)
  {
    hide Without, Staying, Woken, LockMutex, UnlockMutex, CallSem;
  }

  /** The running task never gives up during the run. */
  ghost predicate Holds(s: State, steps: seq<Step>)
    requires CanRun(s, steps)
    decreases |steps|
  {
    |steps| > 0 ==> !GivesUp(s, steps[0]) && Holds(Next(s, steps[0]), steps[1..])
  }

  /** t is not running before any step of the run. */
  ghost predicate Waits(s: State, steps: seq<Step>, t: Task)
    requires CanRun(s, steps)
    decreases |steps|
  {
    |steps| > 0 ==> s.curr != t && Waits(Next(s, steps[0]), steps[1..], t)
  }

  /** A task that does not give up keeps the processor for as many ticks as its slice has left. */
  lemma {:induction false} RunKeepsTurn(s: State, place: map<Task, Place>, steps: seq<Step>)
    requires Inv(s, place) && CanRun(s, steps) && s.curr != IDLE && Holds(s, steps) && Ticks(steps) < Slice(s, s.curr)
    ensures var u := Run(s, steps); u.curr == s.curr && Slice(u, s.curr) == Slice(s, s.curr) - Ticks(steps)
    decreases |steps|
  {
    hide Inv, Next, GivesUp, Slice;
    if |steps| > 0 {
      StepKeepsTurn(s, place, steps[0]);
      var place' := StepKeepsInv(s, place, steps[0]);
      RunKeepsTurn(Next(s, steps[0]), place', steps[1..]);
    }
  }

  lemma {:induction false} RunKeepsSlice(s: State, steps: seq<Step>, t: Task)
    requires CanRun(s, steps) && Waits(s, steps, t)
    ensures Slice(Run(s, steps), t) == Slice(s, t)
    decreases |steps|
  {
    hide Next, Slice;
    if |steps| > 0 {
      StepKeepsSlice(s, steps[0], t);
      RunKeepsSlice(Next(s, steps[0]), steps[1..], t);
    }
  }

  /**
   * A full turn. A tick takes the last of a task's slice and puts it at the end; `waiting`
   * is any run until it runs again, `turn` any run in which it does not give up. It has ten
   * ticks: through fewer than ten it keeps the processor, and if somebody else is ready then,
   * the tenth puts it at the end again.
   */
  lemma FullTurn(s: State, place: map<Task, Place>, waiting: seq<Step>, turn: seq<Step>)
    requires Inv(s, place) && s.curr != IDLE && |s.ready| > 1 && Slice(s, s.curr) == 1
    requires CanRun(Next(s, DoTick), waiting) && Waits(Next(s, DoTick), waiting, s.curr)
    requires var u := Run(Next(s, DoTick), waiting); u.curr == s.curr && CanRun(u, turn) && Holds(u, turn) && Ticks(turn) < 10
    ensures var s1 := Next(s, DoTick); s1.curr == s.ready[1] && s1.ready == s.ready[1..] + [s.curr] && Slice(s1, s.curr) == 10
    ensures var v := Run(Run(Next(s, DoTick), waiting), turn);
            && v.curr == s.curr && Slice(v, s.curr) == 10 - Ticks(turn)
            && (Ticks(turn) == 9 && |v.ready| > 1 ==>
                  var w := Next(v, DoTick); w.curr == v.ready[1] && w.ready == v.ready[1..] + [s.curr] && Slice(w, s.curr) == 10)
  {
    hide Next, Run, CanRun, Inv, Waits, Holds;
    TickCounts(s, place);
    var s1 := Next(s, DoTick);
    var place1 := StepKeepsInv(s, place, DoTick);
    RunKeepsSlice(s1, waiting, s.curr);
    var place2 := RunKeepsInv(s1, place1, waiting);
    var u := Run(s1, waiting);
    RunKeepsTurn(u, place2, turn);
    var place3 := RunKeepsInv(u, place2, turn);
    TickCounts(Run(u, turn), place3);
  }
}
