/**
 * The scheduler and its kernel entries as a state machine (src/kernel/task.c:223-349
 * and 673-678, src/kernel/mutex.c, src/kernel/sem.c). Every entry runs with
 * interrupts off, so it is one atomic step; a task switch is a change of `curr`.
 *
 * The timer interrupt is two steps. Its first task_dispatch may switch away, and
 * then the rest of the handler, the scan of the sleep list, runs when the
 * interrupted task is resumed: `Tick` is the part up to that dispatch, `Scan` the
 * rest.
 */
module Sched {
  import opened Options
  import opened Sync

  const IDLE: Task := 0
  const SLICE := 10
  const TICK_MS := 10

  /**
   * `slice` and `sleepTicks` hold the counters that differ from what task_init sets.
   * `started` are the tasks task_start was called for, `exited` those that called sys_exit.
   */
  datatype State = State(
    curr: Task,
    ready: seq<Task>,
    sleep: seq<Task>,
    slice: map<Task, int>,
    sleepTicks: map<Task, int>,
    mutexes: seq<Mutex>,
    sems: seq<Sem>,
    started: set<Task>,
    exited: set<Task>)

  function Slice(s: State, t: Task): int {
    if t in s.slice then s.slice[t] else SLICE
  }

  function SleepTicks(s: State, t: Task): int {
    if t in s.sleepTicks then s.sleepTicks[t] else 0
  }

  // ---------------------------------------------------------------- list operations

  /** task_set_ready. */
  function SetReady(s: State, t: Task): State {
    if t == IDLE then s else s.(ready := s.ready + [t])
  }

  /** task_set_block: list_delete takes the task out of the ready list. */
  function SetBlock(s: State, t: Task): State {
    if t == IDLE then s else s.(ready := Without(s.ready, t))
  }

  /** task_next_run. */
  function NextRun(s: State): Task {
    if |s.ready| == 0 then IDLE else s.ready[0]
  }

  /** task_dispatch. */
  function Dispatch(s: State): State {
    s.(curr := NextRun(s))
  }

  // ---------------------------------------------------------------- kernel entries

  /** task_time_tick up to its first dispatch. */
  function Tick(s: State): State {
    var n := Slice(s, s.curr) - 1;
    if n != 0 then s.(slice := s.slice[s.curr := n])
    else
      var t := s.(slice := s.slice[s.curr := SLICE]);
      Dispatch(SetReady(SetBlock(t, s.curr), s.curr))
  }

  /** The sleepers from position i on that the scan wakes, in order. */
  function Woken(s: State, xs: seq<Task>): seq<Task>
    decreases |xs|
  {
    if |xs| == 0 then [] else (if SleepTicks(s, xs[0]) == 1 then [xs[0]] else []) + Woken(s, xs[1..])
  }

  /** The sleepers that stay, in order. */
  function Staying(s: State, xs: seq<Task>): seq<Task>
    decreases |xs|
  {
    if |xs| == 0 then [] else (if SleepTicks(s, xs[0]) == 1 then [] else [xs[0]]) + Staying(s, xs[1..])
  }

  /** The rest of task_time_tick: every sleeper is counted down, the due ones become ready, then dispatch. */
  function Scan(s: State): State {
    Dispatch(s.(
      sleepTicks := s.sleepTicks + (map t | t in s.sleep :: SleepTicks(s, t) - 1),
      sleep := Staying(s, s.sleep),
      ready := s.ready + Woken(s, s.sleep)))
  }

  /** sys_yield. */
  function Yield(s: State): State {
    if |s.ready| > 1 then Dispatch(SetReady(SetBlock(s, s.curr), s.curr)) else s
  }

  /** sys_sleep; task_set_sleep ignores a time shorter than a tick. */
  function Sleep(s: State, ms: nat): State {
    var b := SetBlock(s, s.curr);
    Dispatch(if ms / TICK_MS == 0 then b
             else b.(sleepTicks := b.sleepTicks[s.curr := ms / TICK_MS], sleep := b.sleep + [s.curr]))
  }

  /** The protected part of sys_exit. */
  function Exit(s: State): State {
    Dispatch(SetBlock(s.(exited := s.exited + {s.curr}), s.curr))
  }

  /** task_start; it does not dispatch. */
  function Start(s: State, t: Task): State {
    SetReady(s.(started := s.started + {t}), t)
  }

  /** mutex_lock. */
  function LockStep(s: State, k: nat): State
    requires k < |s.mutexes|
  {
    var m := s.mutexes[k];
    var t := s.(mutexes := s.mutexes[k := LockMutex(m, s.curr)]);
    if m.count == 0 || m.owner == Some(s.curr) then t else Dispatch(SetBlock(t, s.curr))
  }

  /** mutex_unlock; the first waiter becomes owner and ready. */
  function UnlockStep(s: State, k: nat): State
    requires k < |s.mutexes|
  {
    var m := s.mutexes[k];
    var t := s.(mutexes := s.mutexes[k := UnlockMutex(m, s.curr)]);
    if m.owner == Some(s.curr) && m.count == 1 && |m.waiters| > 0 then Dispatch(SetReady(t, m.waiters[0])) else t
  }

  /** sem_wait. */
  function WaitStep(s: State, k: nat): State
    requires k < |s.sems|
  {
    var t := s.(sems := s.sems[k := CallSem(s.sems[k], Wait(s.curr))]);
    if s.sems[k].count > 0 then t else Dispatch(SetBlock(t, s.curr))
  }

  /** sem_notify. */
  function NotifyStep(s: State, k: nat): State
    requires k < |s.sems|
  {
    var t := s.(sems := s.sems[k := CallSem(s.sems[k], Notify)]);
    if |s.sems[k].waiters| > 0 then Dispatch(SetReady(t, s.sems[k].waiters[0])) else t
  }

  datatype Step =
    | DoTick | DoScan | DoYield | DoSleep(ms: nat) | DoExit | DoStart(t: Task)
    | DoLock(k: nat) | DoUnlock(k: nat) | DoWait(k: nat) | DoNotify(k: nat)

  /**
   * When an entry can occur. Interrupts (the two parts of the tick, and sem_notify from
   * the keyboard) can find the idle task running; the idle task itself only halts, so
   * system calls come from other tasks. A task is started once.
   */
  predicate Enabled(s: State, a: Step) {
    match a
    case DoTick => true
    case DoScan => true
    case DoNotify(k) => k < |s.sems|
    case DoStart(t) => s.curr != IDLE && t != IDLE && t !in s.started
    case DoLock(k) => s.curr != IDLE && k < |s.mutexes|
    case DoUnlock(k) => s.curr != IDLE && k < |s.mutexes|
    case DoWait(k) => s.curr != IDLE && k < |s.sems|
    case _ => s.curr != IDLE
  }

  function Next(s: State, a: Step): State
    requires Enabled(s, a)
  {
    match a
    case DoTick => Tick(s)
    case DoScan => Scan(s)
    case DoYield => Yield(s)
    case DoSleep(ms) => Sleep(s, ms)
    case DoExit => Exit(s)
    case DoStart(t) => Start(s, t)
    case DoLock(k) => LockStep(s, k)
    case DoUnlock(k) => UnlockStep(s, k)
    case DoWait(k) => WaitStep(s, k)
    case DoNotify(k) => NotifyStep(s, k)
  }
}
