/**
 * The blocking primitives on their own (src/kernel/mutex.c, src/kernel/sem.c): what
 * a mutex and a semaphore hold after any history of calls, said in terms of the
 * history alone. The scheduler's part of each call is in module Sched.
 */
module Sync {
  import opened Options

  type Task = nat

  // ---------------------------------------------------------------- recursive mutex

  datatype Mutex = Mutex(owner: Option<Task>, count: nat, waiters: seq<Task>)

  const FREE_MUTEX := Mutex(None, 0, [])

  /** mutex_lock by task t; a waiter is queued in `waiters`. */
  function LockMutex(m: Mutex, t: Task): Mutex {
    if m.count == 0 then m.(count := 1, owner := Some(t))
    else if m.owner == Some(t) then m.(count := m.count + 1)
    else m.(waiters := m.waiters + [t])
  }

  /** mutex_unlock by task t; the first waiter, if any, becomes the owner. */
  function UnlockMutex(m: Mutex, t: Task): Mutex
  {
    if m.owner != Some(t) || m.count == 0 then m
    else if m.count > 1 then m.(count := m.count - 1)
    else if |m.waiters| == 0 then m.(count := 0, owner := None)
    else Mutex(Some(m.waiters[0]), 1, m.waiters[1..])
  }

  datatype MutexCall = Lock(t: Task) | Unlock(t: Task)

  function CallMutex(m: Mutex, c: MutexCall): Mutex {
    match c
    case Lock(t) => LockMutex(m, t)
    case Unlock(t) => UnlockMutex(m, t)
  }

  /** The mutex after a history of calls, oldest first. */
  function MutexAfter(calls: seq<MutexCall>): Mutex
    decreases |calls|
  {
    if |calls| == 0 then FREE_MUTEX else CallMutex(MutexAfter(calls[..|calls| - 1]), calls[|calls| - 1])
  }

  /** No call is made by a task that is waiting for the mutex: it is blocked. */
  ghost predicate Possible(calls: seq<MutexCall>)
    decreases |calls|
  {
    |calls| > 0 ==>
      Possible(calls[..|calls| - 1]) && calls[|calls| - 1].t !in MutexAfter(calls[..|calls| - 1]).waiters
  }

  /** Lock calls of t not yet matched by an unlock call of t. */
  function Depth(calls: seq<MutexCall>, t: Task): nat
    decreases |calls|
  {
    if |calls| == 0 then 0
    else
      var d := Depth(calls[..|calls| - 1], t);
      match calls[|calls| - 1]
      case Lock(u) => if u == t then d + 1 else d
      case Unlock(u) => if u == t && d > 0 then d - 1 else d
  }

  /** The tasks with unmatched locks, in the order in which they came. */
  function Queue(calls: seq<MutexCall>): seq<Task>
    decreases |calls|
  {
    if |calls| == 0 then []
    else
      var before := calls[..|calls| - 1];
      match calls[|calls| - 1]
      case Lock(u) => if u in Queue(before) then Queue(before) else Queue(before) + [u]
      case Unlock(u) => if Depth(before, u) == 1 then Without(Queue(before), u) else Queue(before)
  }

  /** xs without the first occurrence of t. */
  function Without(xs: seq<Task>, t: Task): seq<Task>
    decreases |xs|
  {
    if |xs| == 0 then [] else if xs[0] == t then xs[1..] else [xs[0]] + Without(xs[1..], t)
  }

  ghost predicate NoDup(xs: seq<Task>) {
    forall i, j :: 0 <= i < j < |xs| ==> xs[i] != xs[j]
  }

  /** The owner and the waiters, in line. */
  function Line(m: Mutex): seq<Task> {
    if m.owner.Some? then [m.owner.value] + m.waiters else []
  }

  /** A mutex is idle in all three fields or held with a positive count, and nobody is in line twice. */
  ghost predicate MutexOk(m: Mutex) {
    && (m.count == 0 <==> m.owner == None)
    && (m.owner == None ==> m.waiters == [])
    && NoDup(Line(m))
  }

  lemma MutexOkStep(m: Mutex, c: MutexCall)
    requires MutexOk(m) && c.t !in m.waiters
    ensures MutexOk(CallMutex(m, c))
  {
    var n := CallMutex(m, c);
    if m.owner.Some? && m.owner.value != c.t && c.Lock? {
      assert Line(n) == Line(m) + [c.t];
    } else if n.owner.Some? && m.owner == Some(c.t) && c.Unlock? && m.count == 1 {
      assert Line(n) == Line(m)[1..];
    }
  }

  /** Where a task stands, as the mutex tells it. */
  function Standing(m: Mutex, t: Task): nat {
    if m.owner == Some(t) then m.count else if t in m.waiters then 1 else 0
  }

  lemma StandingStep(m: Mutex, c: MutexCall, t: Task)
    requires MutexOk(m) && c.t !in m.waiters
    ensures var d := Standing(m, t);
            Standing(CallMutex(m, c), t) ==
              if c.t != t then d else if c.Lock? then d + 1 else if d > 0 then d - 1 else 0
  {
  }

  lemma LineStep(m: Mutex, c: MutexCall)
    requires MutexOk(m) && c.t !in m.waiters
    ensures Line(CallMutex(m, c)) ==
              match c
              case Lock(t) => if t in Line(m) then Line(m) else Line(m) + [t]
              case Unlock(t) => if Standing(m, t) == 1 then Without(Line(m), t) else Line(m)
  {
  }

  /**
   * After any possible history the mutex says exactly what the history says: its count is
   * the owner's unmatched locks, every waiter has one, everybody else has none, it is idle
   * exactly when nobody has any, and owner and waiters stand in order of arrival.
   */
  lemma {:induction false} MutexFollowsHistory(calls: seq<MutexCall>)
    requires Possible(calls)
    ensures var m := MutexAfter(calls);
            MutexOk(m) && Line(m) == Queue(calls) && forall t: Task :: Depth(calls, t) == Standing(m, t)
    decreases |calls|
  {
    if |calls| > 0 {
      var before, c := calls[..|calls| - 1], calls[|calls| - 1];
      MutexFollowsHistory(before);
      var m := MutexAfter(before);
      MutexOkStep(m, c);
      LineStep(m, c);
      forall t: Task
        ensures Depth(calls, t) == Standing(CallMutex(m, c), t)
      {
        StandingStep(m, c, t);
      }
    }
  }

  /** A task leaves the line of waiters only by becoming the owner. */
  lemma WaiterLeavesAsOwner(m: Mutex, c: MutexCall, t: Task)
    requires MutexOk(m) && t in m.waiters && t !in CallMutex(m, c).waiters
    ensures CallMutex(m, c).owner == Some(t) && CallMutex(m, c).count == 1 && m.waiters[0] == t
  {
  }

  // ---------------------------------------------------------------- counting semaphore

  datatype Sem = Sem(count: int, waiters: seq<Task>)

  datatype SemCall = Wait(t: Task) | Notify

  /** sem_wait by t and sem_notify. */
  function CallSem(s: Sem, c: SemCall): Sem {
    match c
    case Wait(t) => if s.count > 0 then s.(count := s.count - 1) else s.(waiters := s.waiters + [t])
    case Notify => if |s.waiters| > 0 then s.(waiters := s.waiters[1..]) else s.(count := s.count + 1)
  }

  function SemAfter(init: int, calls: seq<SemCall>): Sem
    decreases |calls|
  {
    if |calls| == 0 then Sem(init, []) else CallSem(SemAfter(init, calls[..|calls| - 1]), calls[|calls| - 1])
  }

  /** The tasks that called sem_wait, in order. */
  function Waits(calls: seq<SemCall>): seq<Task>
    decreases |calls|
  {
    if |calls| == 0 then []
    else
      var w := Waits(calls[..|calls| - 1]);
      match calls[|calls| - 1]
      case Wait(t) => w + [t]
      case Notify => w
  }

  function Notifies(calls: seq<SemCall>): nat
    decreases |calls|
  {
    if |calls| == 0 then 0 else Notifies(calls[..|calls| - 1]) + if calls[|calls| - 1].Notify? then 1 else 0
  }

  /** How many of the wait calls so far have been granted: as many as there were permits. */
  function Granted(init: nat, calls: seq<SemCall>): (g: nat)
    ensures g <= |Waits(calls)|
  {
    if |Waits(calls)| <= init + Notifies(calls) then |Waits(calls)| else init + Notifies(calls)
  }

  /**
   * Conservation and order: init + notifies == count + granted waits, the waits granted are
   * the oldest ones, the others wait in order, and nobody waits while the count is positive.
   */
  lemma {:induction false} SemFollowsHistory(init: nat, calls: seq<SemCall>)
    ensures var s := SemAfter(init, calls);
            && s.count >= 0 && init + Notifies(calls) == s.count + Granted(init, calls)
            && s.waiters == Waits(calls)[Granted(init, calls)..]
            && (s.count > 0 ==> s.waiters == [])
    decreases |calls|
  {
    if |calls| > 0 {
      var before := calls[..|calls| - 1];
      SemFollowsHistory(init, before);
      match calls[|calls| - 1]
      case Wait(t) =>
        assert Waits(calls) == Waits(before) + [t];
      case Notify =>
        assert Waits(calls) == Waits(before);
    }
  }

  /** No lost and no double wakeup: a call is granted once the permits reach it, and stays granted. */
  lemma GrantsGrow(init: nat, calls: seq<SemCall>, c: SemCall)
    ensures Waits(calls) <= Waits(calls + [c])
    ensures Granted(init, calls) <= Granted(init, calls + [c]) <= Granted(init, calls) + 1
    ensures c.Notify? && |SemAfter(init, calls).waiters| > 0 ==> Granted(init, calls + [c]) == Granted(init, calls) + 1
  {
    assert (calls + [c])[..|calls|] == calls;
    SemFollowsHistory(init, calls);
  }
}
