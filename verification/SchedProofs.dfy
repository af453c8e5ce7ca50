/**
 * What every scheduler step keeps: each live task is on exactly one list, and the
 * running task is the head of the ready list.
 */
module SchedProofs {
  import opened Options
  import opened Sync
  import opened Sched

  /** The list a task is on. */
  datatype Place = InReady | InSleep | InMutex(k: nat) | InSem(k: nat)

  function ListAt(s: State, p: Place): seq<Task> {
    match p
    case InReady => s.ready
    case InSleep => s.sleep
    case InMutex(k) => if k < |s.mutexes| then s.mutexes[k].waiters else []
    case InSem(k) => if k < |s.sems| then s.sems[k].waiters else []
  }

  /**
   * `place` gives each started task that has not exited its one list. A task found on a
   * list has that list as its place, so no task is on two, and no list holds it twice.
   */
  ghost predicate Placed(s: State, place: map<Task, Place>) {
    && place.Keys == s.started - s.exited
    && (forall p: Place :: NoDup(ListAt(s, p)))
    && (forall p: Place, t: Task :: t in ListAt(s, p) ==> t in place && place[t] == p)
    && (forall t :: t in place ==> t in ListAt(s, place[t]))
  }

  /** The counters: a slice is between 1 and SLICE, a sleeper has ticks to go. */
  ghost predicate Counters(s: State) {
    && (forall t: Task :: 1 <= Slice(s, t) <= SLICE)
    && (forall t :: t in s.sleep ==> SleepTicks(s, t) >= 1)
  }

  /** The invariant of the scheduler. */
  ghost predicate Inv(s: State, place: map<Task, Place>) {
    Placed(s, place) && Counters(s) && IDLE !in s.started && s.exited <= s.started && s.curr == NextRun(s)
  }

  // ---------------------------------------------------------------- lists

  lemma {:induction false} WithoutFacts(xs: seq<Task>, t: Task)
    requires NoDup(xs)
    ensures NoDup(Without(xs, t)) && forall u: Task :: u in Without(xs, t) <==> u in xs && u != t
    decreases |xs|
  {
    if |xs| > 0 {
      WithoutFacts(xs[1..], t);
      assert forall u: Task :: u in xs <==> u == xs[0] || u in xs[1..];
      assert xs[0] !in xs[1..];
      if xs[0] != t {
        NoDupCons(xs[0], Without(xs[1..], t));
      }
    }
  }

  lemma NoDupCons(t: Task, xs: seq<Task>)
    requires NoDup(xs) && t !in xs
    ensures NoDup([t] + xs)
  {
  }

  lemma NoDupAppend(xs: seq<Task>, t: Task)
    requires NoDup(xs) && t !in xs
    ensures NoDup(xs + [t])
  {
  }

  /** Deleting the head is dropping it. */
  lemma WithoutHead(xs: seq<Task>)
    requires |xs| > 0
    ensures Without(xs, xs[0]) == xs[1..]
  {
  }

  // ---------------------------------------------------------------- moving one task

  /** t is s with task x moved from the list `from` to the end of the list `to`. */
  ghost predicate Moved(s: State, t: State, x: Task, from: Place, to: Place) {
    && t.started == s.started && t.exited == s.exited
    && x in ListAt(s, from)
    && (forall p: Place :: ListAt(t, p) == if p == to then Left(s, p, x, from) + [x] else Left(s, p, x, from))
  }

  function Left(s: State, p: Place, x: Task, from: Place): seq<Task> {
    if p == from then Without(ListAt(s, p), x) else ListAt(s, p)
  }

  /** Moving a task keeps everyone on one list. */
  lemma MovedPlaced(s: State, t: State, place: map<Task, Place>, x: Task, from: Place, to: Place)
    requires Placed(s, place) && Moved(s, t, x, from, to)
    ensures Placed(t, place[x := to])
  {
    hide ListAt, NoDup;
    WithoutFacts(ListAt(s, from), x);
    forall p: Place
      ensures NoDup(ListAt(t, p))
    {
      LeftFacts(s, place, p, x, from);
      if p == to {
        NoDupAppend(Left(s, p, x, from), x);
      }
    }
    forall p: Place, u: Task | u in ListAt(t, p)
      ensures u in place[x := to] && place[x := to][u] == p
    {
      LeftFacts(s, place, p, x, from);
    }
    var place' := place[x := to];
    forall u | u in place'
      ensures u in ListAt(t, place'[u])
    {
      if u != x {
        LeftFacts(s, place, place[u], x, from);
      }
    }
  }

  lemma LeftFacts(s: State, place: map<Task, Place>, p: Place, x: Task, from: Place)
    requires Placed(s, place) && x in ListAt(s, from)
    ensures NoDup(Left(s, p, x, from)) && x !in Left(s, p, x, from)
    ensures forall u: Task :: u in Left(s, p, x, from) <==> u in ListAt(s, p) && u != x
  {
    hide ListAt, NoDup;
    if p == from {
      WithoutFacts(ListAt(s, p), x);
    } else {
      assert place[x] == from;
    }
  }

  ghost predicate SameLists(s: State, t: State) {
    t.started == s.started && t.exited == s.exited && forall p: Place :: ListAt(t, p) == ListAt(s, p)
  }

  lemma SamePlaced(s: State, t: State, place: map<Task, Place>)
    requires Placed(s, place) && SameLists(s, t)
    ensures Placed(t, place)
  {
  }

  /** The running task, unless idle, is on the ready list and nowhere else. */
  lemma CurrIsReady(s: State, place: map<Task, Place>)
    requires Inv(s, place)
    ensures s.curr != IDLE ==> |s.ready| > 0 && s.ready[0] == s.curr && s.curr in ListAt(s, InReady) && s.curr in place && place[s.curr] == InReady
    ensures s.curr == IDLE ==> s.ready == []
    ensures IDLE !in place && s.curr !in s.exited
  {
    if |s.ready| > 0 {
      assert s.ready[0] in ListAt(s, InReady);
    }
  }

  /** Dispatch changes no list and makes the running task the head of the ready list. */
  lemma DispatchInv(s: State, place: map<Task, Place>)
    requires Placed(s, place) && Counters(s) && IDLE !in s.started && s.exited <= s.started
    ensures Inv(Dispatch(s), place)
  {
    hide NoDup;
    assert SameLists(s, Dispatch(s));
    SamePlaced(s, Dispatch(s), place);
    assert forall t: Task :: Slice(Dispatch(s), t) == Slice(s, t) && SleepTicks(Dispatch(s), t) == SleepTicks(s, t);
  }

  /** A step that moves one task, changes no counter, and dispatches. */
  lemma MoveInv(s: State, t: State, place: map<Task, Place>, x: Task, from: Place, to: Place)
    requires Inv(s, place) && Moved(s, t, x, from, to)
    requires t.slice == s.slice && (forall u: Task :: u in t.sleep ==> SleepTicks(t, u) >= 1)
    ensures Inv(Dispatch(t), place[x := to])
  {
    hide NoDup, ListAt, Moved;
    MovedPlaced(s, t, place, x, from, to);
    assert Counters(t) by {
      assert forall u: Task :: Slice(t, u) == Slice(s, u);
    }
    MovedSets(s, t, x, from, to);
    DispatchInv(t, place[x := to]);
  }

  lemma MovedSets(s: State, t: State, x: Task, from: Place, to: Place)
    requires Moved(s, t, x, from, to)
    ensures t.started == s.started && t.exited == s.exited
  {
  }

  // ---------------------------------------------------------------- the steps

  /** Taking the running task from the head of the ready list and putting it at the end. */
  lemma RotateMoves(s: State, t: State, place: map<Task, Place>)
    requires Inv(s, place) && s.curr != IDLE && t.ready == s.ready && SameLists(s, t)
    ensures Moved(s, SetReady(SetBlock(t, s.curr), s.curr), s.curr, InReady, InReady)
  {
  }

  lemma TickInv(s: State, place: map<Task, Place>) returns (place': map<Task, Place>)
    requires Inv(s, place)
    ensures Inv(Tick(s), place')
  {
    hide NoDup, Moved;
    place' := place;
    CurrIsReady(s, place);
    var n := Slice(s, s.curr) - 1;
    var t := s.(slice := s.slice[s.curr := if n != 0 then n else SLICE]);
    assert SameLists(s, t);
    SamePlaced(s, t, place);
    assert Counters(t) by {
      assert forall u: Task :: Slice(t, u) == if u == s.curr then (if n != 0 then n else SLICE) else Slice(s, u);
      assert forall u: Task :: SleepTicks(t, u) == SleepTicks(s, u);
    }
    if n == 0 {
      if s.curr == IDLE {
        DispatchInv(t, place);
      } else {
        RotateMoves(t, t, place);
        place' := place[s.curr := InReady];
        MoveInv(t, SetReady(SetBlock(t, s.curr), s.curr), place, s.curr, InReady, InReady);
      }
    }
  }

  lemma YieldInv(s: State, place: map<Task, Place>) returns (place': map<Task, Place>)
    requires Inv(s, place) && s.curr != IDLE
    ensures Inv(Yield(s), place')
  {
    hide NoDup, Moved, Placed, Counters;
    place' := place;
    if |s.ready| > 1 {
      RotateMoves(s, s, place);
      place' := place[s.curr := InReady];
      SleepersKept(s, place);
      MoveInv(s, SetReady(SetBlock(s, s.curr), s.curr), place, s.curr, InReady, InReady);
    }
  }

  /** Steps that touch neither sleepers nor counters keep the sleepers' ticks positive. */
  lemma SleepersKept(s: State, place: map<Task, Place>)
    requires Inv(s, place)
    ensures forall t: State, u: Task :: t.sleep == s.sleep && t.sleepTicks == s.sleepTicks && u in t.sleep ==> SleepTicks(t, u) >= 1
  {
  }

  lemma SleepInv(s: State, place: map<Task, Place>, ms: nat) returns (place': map<Task, Place>)
    requires Inv(s, place) && s.curr != IDLE && ms >= TICK_MS
    ensures Inv(Sleep(s, ms), place')
  {
    hide NoDup, Placed;
    CurrIsReady(s, place);
    var b := SetBlock(s, s.curr);
    var t := b.(sleepTicks := b.sleepTicks[s.curr := ms / TICK_MS], sleep := b.sleep + [s.curr]);
    assert forall u: Task :: SleepTicks(t, u) == if u == s.curr then ms / TICK_MS else SleepTicks(s, u);
    place' := place[s.curr := InSleep];
    MoveInv(s, t, place, s.curr, InReady, InSleep);
  }

  lemma LockInv(s: State, place: map<Task, Place>, k: nat) returns (place': map<Task, Place>)
    requires Inv(s, place) && s.curr != IDLE && k < |s.mutexes|
    ensures Inv(LockStep(s, k), place')
  {
    hide NoDup, Placed, Counters;
    CurrIsReady(s, place);
    var m := s.mutexes[k];
    var t := s.(mutexes := s.mutexes[k := LockMutex(m, s.curr)]);
    place' := place;
    if m.count == 0 || m.owner == Some(s.curr) {
      assert forall p: Place :: ListAt(t, p) == ListAt(s, p);
      SameInv(s, t, place);
    } else {
      place' := place[s.curr := InMutex(k)];
      SleepersKept(s, place);
      MoveInv(s, SetBlock(t, s.curr), place, s.curr, InReady, InMutex(k));
    }
  }

  /** A step that changes only the fields of mutexes and semaphores that are not lists. */
  lemma SameInv(s: State, t: State, place: map<Task, Place>)
    requires Inv(s, place) && SameLists(s, t) && t.slice == s.slice && t.sleepTicks == s.sleepTicks && t.curr == s.curr
    ensures Inv(t, place)
  {
    hide NoDup;
    SamePlaced(s, t, place);
    assert ListAt(t, InReady) == ListAt(s, InReady) && ListAt(t, InSleep) == ListAt(s, InSleep);
    assert forall u: Task :: Slice(t, u) == Slice(s, u) && SleepTicks(t, u) == SleepTicks(s, u);
  }

  lemma UnlockInv(s: State, place: map<Task, Place>, k: nat) returns (place': map<Task, Place>)
    requires Inv(s, place) && k < |s.mutexes|
    ensures Inv(UnlockStep(s, k), place')
  {
    hide NoDup, Placed, Counters;
    var m := s.mutexes[k];
    var t := s.(mutexes := s.mutexes[k := UnlockMutex(m, s.curr)]);
    place' := place;
    if m.owner == Some(s.curr) && m.count == 1 && |m.waiters| > 0 {
      var x := m.waiters[0];
      WithoutHead(m.waiters);
      WaiterIsTask(s, place, x, InMutex(k));
      place' := place[x := InReady];
      SleepersKept(s, place);
      MoveInv(s, SetReady(t, x), place, x, InMutex(k), InReady);
    } else {
      assert forall p: Place :: ListAt(t, p) == ListAt(s, p);
      SameInv(s, t, place);
    }
  }

  lemma WaiterIsTask(s: State, place: map<Task, Place>, x: Task, p: Place)
    requires Inv(s, place) && x in ListAt(s, p)
    ensures x != IDLE && x in place && place[x] == p && x !in s.exited
  {
  }

  lemma WaitInv(s: State, place: map<Task, Place>, k: nat) returns (place': map<Task, Place>)
    requires Inv(s, place) && s.curr != IDLE && k < |s.sems|
    ensures Inv(WaitStep(s, k), place')
  {
    hide NoDup, Placed, Counters;
    CurrIsReady(s, place);
    var t := s.(sems := s.sems[k := CallSem(s.sems[k], Wait(s.curr))]);
    place' := place;
    if s.sems[k].count > 0 {
      assert forall p: Place :: ListAt(t, p) == ListAt(s, p);
      SameInv(s, t, place);
    } else {
      place' := place[s.curr := InSem(k)];
      SleepersKept(s, place);
      MoveInv(s, SetBlock(t, s.curr), place, s.curr, InReady, InSem(k));
    }
  }

  lemma NotifyInv(s: State, place: map<Task, Place>, k: nat) returns (place': map<Task, Place>)
    requires Inv(s, place) && k < |s.sems|
    ensures Inv(NotifyStep(s, k), place')
  {
    hide NoDup, Placed, Counters;
    var t := s.(sems := s.sems[k := CallSem(s.sems[k], Notify)]);
    place' := place;
    if |s.sems[k].waiters| > 0 {
      var x := s.sems[k].waiters[0];
      WithoutHead(s.sems[k].waiters);
      WaiterIsTask(s, place, x, InSem(k));
      place' := place[x := InReady];
      SleepersKept(s, place);
      MoveInv(s, SetReady(t, x), place, x, InSem(k), InReady);
    } else {
      assert forall p: Place :: ListAt(t, p) == ListAt(s, p);
      SameInv(s, t, place);
    }
  }

  /** A new task joins the ready list. */
  lemma AddedPlaced(s: State, t: State, place: map<Task, Place>, x: Task)
    requires Placed(s, place) && x !in s.started && x !in s.exited && t.started == s.started + {x} && t.exited == s.exited
    requires forall p: Place :: ListAt(t, p) == if p == InReady then ListAt(s, p) + [x] else ListAt(s, p)
    requires forall p: Place :: x !in ListAt(s, p)
    ensures Placed(t, place[x := InReady])
  {
    hide ListAt, NoDup;
    var place' := place[x := InReady];
    NoDupAppend(ListAt(s, InReady), x);
    forall p: Place
      ensures NoDup(ListAt(t, p))
    {
      assert NoDup(ListAt(s, p));
    }
    forall u | u in place'
      ensures u in ListAt(t, place'[u])
    {
      if u != x {
        assert u in ListAt(s, place[u]);
      }
    }
  }

  lemma StartInv(s: State, place: map<Task, Place>, x: Task)
    requires Inv(s, place) && s.curr != IDLE && x != IDLE && x !in s.started
    ensures Inv(Start(s, x), place[x := InReady])
  {
    hide Placed, NoDup;
    CurrIsReady(s, place);
    NotListed(s, place, x);
    var t := Start(s, x);
    AddedPlaced(s, t, place, x);
    assert forall u: Task :: Slice(t, u) == Slice(s, u) && SleepTicks(t, u) == SleepTicks(s, u);
  }

  lemma NotListed(s: State, place: map<Task, Place>, x: Task)
    requires Inv(s, place) && (x !in s.started || x in s.exited)
    ensures forall p: Place :: x !in ListAt(s, p)
  {
    hide ListAt;
    assert x !in place.Keys;
  }

  /** A task leaves for good. */
  lemma RemovedPlaced(s: State, t: State, place: map<Task, Place>, x: Task, from: Place)
    requires Placed(s, place) && x in ListAt(s, from) && t.started == s.started && t.exited == s.exited + {x}
    requires forall p: Place :: ListAt(t, p) == Left(s, p, x, from)
    ensures Placed(t, place - {x})
  {
    hide ListAt, NoDup;
    var place' := place - {x};
    forall p: Place
      ensures NoDup(ListAt(t, p))
      ensures forall u: Task :: u in ListAt(t, p) <==> u in ListAt(s, p) && u != x
    {
      LeftFacts(s, place, p, x, from);
    }
    assert place'.Keys == t.started - t.exited;
    forall u | u in place'
      ensures u in ListAt(t, place'[u])
    {
      assert u in ListAt(s, place[u]);
    }
  }

  lemma ExitInv(s: State, place: map<Task, Place>)
    requires Inv(s, place) && s.curr != IDLE
    ensures Inv(Exit(s), place - {s.curr})
  {
    hide NoDup, Placed;
    CurrIsReady(s, place);
    var x, place' := s.curr, place - {s.curr};
    var t := SetBlock(s.(exited := s.exited + {x}), x);
    assert forall p: Place :: ListAt(t, p) == Left(s, p, x, InReady);
    RemovedPlaced(s, t, place, x, InReady);
    assert x in s.started by {
      CurrStarted(s, place);
    }
    assert forall u: Task :: Slice(t, u) == Slice(s, u) && SleepTicks(t, u) == SleepTicks(s, u);
    DispatchInv(t, place');
  }

  lemma CurrStarted(s: State, place: map<Task, Place>)
    requires Inv(s, place) && s.curr != IDLE
    ensures s.curr in s.started
  {
    CurrIsReady(s, place);
    assert s.curr in place.Keys;
  }

  // ---------------------------------------------------------------- the sleep scan

  /** The scan splits the sleepers in two, each part in order and without repetition. */
  lemma {:induction false} ScanSplits(s: State, xs: seq<Task>)
    requires NoDup(xs)
    ensures NoDup(Woken(s, xs)) && NoDup(Staying(s, xs))
    ensures forall t: Task :: t in Woken(s, xs) <==> t in xs && SleepTicks(s, t) == 1
    ensures forall t: Task :: t in Staying(s, xs) <==> t in xs && SleepTicks(s, t) != 1
    decreases |xs|
  {
    hide SleepTicks;
    if |xs| > 0 {
      ScanSplits(s, xs[1..]);
      assert forall t: Task :: t in xs <==> t == xs[0] || t in xs[1..];
      assert xs[0] !in xs[1..];
      var w, r := Woken(s, xs[1..]), Staying(s, xs[1..]);
      if SleepTicks(s, xs[0]) == 1 {
        NoDupCons(xs[0], w);
        assert [] + r == r;
      } else {
        NoDupCons(xs[0], r);
        assert [] + w == w;
      }
    }
  }

  lemma NoDupConcat(xs: seq<Task>, ys: seq<Task>)
    requires NoDup(xs) && NoDup(ys) && forall t: Task :: t in xs ==> t !in ys
    ensures NoDup(xs + ys)
  {
    forall i, j | 0 <= i < j < |xs + ys|
      ensures (xs + ys)[i] != (xs + ys)[j]
    {
      if i < |xs| <= j {
        assert xs[i] in xs && ys[j - |xs|] in ys;
      }
    }
  }

  /** The state inside Scan, before its dispatch. */
  function Scanned(s: State): State {
    s.(sleepTicks := s.sleepTicks + (map t | t in s.sleep :: SleepTicks(s, t) - 1),
       sleep := Staying(s, s.sleep),
       ready := s.ready + Woken(s, s.sleep))
  }

  lemma ScannedTicks(s: State, t: Task)
    ensures SleepTicks(Scanned(s), t) == if t in s.sleep then SleepTicks(s, t) - 1 else SleepTicks(s, t)
  {
  }

  function ScanPlace(s: State, place: map<Task, Place>): map<Task, Place> {
    map t | t in place :: if t in Woken(s, s.sleep) then InReady else place[t]
  }

  lemma OneList(s: State, place: map<Task, Place>, t: Task, p: Place, q: Place)
    requires Inv(s, place) && t in ListAt(s, p) && p != q
    ensures t in place && place[t] == p && t !in ListAt(s, q)
  {
  }

  lemma ScanLists(s: State, place: map<Task, Place>)
    requires Inv(s, place)
    ensures NoDup(Woken(s, s.sleep)) && NoDup(Staying(s, s.sleep))
    ensures forall t: Task :: t in Woken(s, s.sleep) <==> t in s.sleep && SleepTicks(s, t) == 1
    ensures forall t: Task :: t in Staying(s, s.sleep) <==> t in s.sleep && SleepTicks(s, t) != 1
    ensures NoDup(s.ready + Woken(s, s.sleep))
    ensures forall t: Task :: t in s.sleep ==> t !in s.ready && t in place && place[t] == InSleep && SleepTicks(s, t) >= 1
  {
    hide SleepTicks, Staying, Woken;
    assert NoDup(ListAt(s, InSleep)) && NoDup(ListAt(s, InReady));
    ScanSplits(s, s.sleep);
    forall t: Task | t in s.sleep
      ensures t !in s.ready && t in place && place[t] == InSleep
    {
      OneList(s, place, t, InSleep, InReady);
    }
    NoDupConcat(s.ready, Woken(s, s.sleep));
  }

  /** After the scan, who is on which list. */
  lemma ScannedLists(s: State, place: map<Task, Place>, p: Place)
    requires Inv(s, place)
    ensures NoDup(ListAt(Scanned(s), p))
    ensures forall u: Task :: u in ListAt(Scanned(s), p) <==>
              match p
              case InReady => u in ListAt(s, p) || u in Woken(s, s.sleep)
              case InSleep => u in ListAt(s, p) && u !in Woken(s, s.sleep)
              case _ => u in ListAt(s, p)
  {
    hide NoDup, SleepTicks, Staying, Woken, Counters;
    ScanLists(s, place);
    assert NoDup(ListAt(s, p));
  }

  lemma ScanPlaced(s: State, place: map<Task, Place>)
    requires Inv(s, place)
    ensures Placed(Scanned(s), ScanPlace(s, place))
  {
    hide NoDup, SleepTicks, Staying, Woken, Counters, ListAt, Scanned;
    var t, place' := Scanned(s), ScanPlace(s, place);
    ScanLists(s, place);
    assert t.started == s.started && t.exited == s.exited by {
      ScannedSets(s);
    }
    forall p: Place
      ensures NoDup(ListAt(t, p))
    {
      ScannedLists(s, place, p);
    }
    forall p: Place, u: Task | u in ListAt(t, p)
      ensures u in place' && place'[u] == p
    {
      ScannedLists(s, place, p);
    }
    forall u | u in place'
      ensures u in ListAt(t, place'[u])
    {
      ScannedLists(s, place, place'[u]);
      assert u in ListAt(s, place[u]);
    }
    assert place'.Keys == place.Keys;
  }

  lemma ScannedSets(s: State)
    ensures Scanned(s).started == s.started && Scanned(s).exited == s.exited
  {
  }

  lemma ScanInv(s: State, place: map<Task, Place>)
    requires Inv(s, place)
    ensures Inv(Scan(s), ScanPlace(s, place))
  {
    hide NoDup, Staying, Woken, Placed, SleepTicks;
    ScanLists(s, place);
    ScanPlaced(s, place);
    var t := Scanned(s);
    assert Counters(t) by {
      assert forall u: Task :: Slice(t, u) == Slice(s, u);
      forall u: Task | u in t.sleep
        ensures SleepTicks(t, u) >= 1
      {
        ScannedTicks(s, u);
      }
    }
    DispatchInv(t, ScanPlace(s, place));
  }

  // ---------------------------------------------------------------- every step, every run

  /** sys_sleep with less than a tick is the one entry that loses its task. */
  predicate Proper(a: Step) {
    a.DoSleep? ==> a.ms >= TICK_MS
  }

  /**
   * Every kernel entry keeps the invariant: each started task that has not exited is on
   * exactly one list, idle is on none, and the running task is the head of the ready list,
   * or idle if that is empty.
   */
  lemma StepKeepsInv(s: State, place: map<Task, Place>, a: Step) returns (place': map<Task, Place>)
    requires Inv(s, place) && Enabled(s, a) && Proper(a)
    ensures Inv(Next(s, a), place')
  {
    hide Inv, Tick, Scan, Yield, Sleep, Exit, Start, LockStep, UnlockStep, WaitStep, NotifyStep;
    match a
    case DoTick => place' := TickInv(s, place);
    case DoScan => place' := ScanPlace(s, place); ScanInv(s, place);
    case DoYield => place' := YieldInv(s, place);
    case DoSleep(ms) => place' := SleepInv(s, place, ms);
    case DoExit => place' := place - {s.curr}; ExitInv(s, place);
    case DoStart(x) => place' := place[x := InReady]; StartInv(s, place, x);
    case DoLock(k) => place' := LockInv(s, place, k);
    case DoUnlock(k) => place' := UnlockInv(s, place, k);
    case DoWait(k) => place' := WaitInv(s, place, k);
    case DoNotify(k) => place' := NotifyInv(s, place, k);
  }

  /** The steps can be taken one after the other. */
  ghost predicate CanRun(s: State, steps: seq<Step>)
    decreases |steps|
  {
    |steps| > 0 ==> Enabled(s, steps[0]) && Proper(steps[0]) && CanRun(Next(s, steps[0]), steps[1..])
  }

  ghost function Run(s: State, steps: seq<Step>): State
    requires CanRun(s, steps)
    decreases |steps|
  {
    if |steps| == 0 then s else Run(Next(s, steps[0]), steps[1..])
  }

  lemma {:induction false} RunKeepsInv(s: State, place: map<Task, Place>, steps: seq<Step>) returns (place': map<Task, Place>)
    requires Inv(s, place) && CanRun(s, steps)
    ensures Inv(Run(s, steps), place')
    decreases |steps|
  {
    hide Inv, Next;
    place' := place;
    if |steps| > 0 {
      var place1 := StepKeepsInv(s, place, steps[0]);
      place' := RunKeepsInv(Next(s, steps[0]), place1, steps[1..]);
    }
  }

  /** The state task_manager_init and first_task_init leave: the first task runs, alone. */
  function Initial(first: Task, mutexes: seq<Mutex>, sems: seq<Sem>): State {
    State(first, [first], [], map[], map[], mutexes, sems, {first}, {})
  }

  /** The first task runs alone and nobody waits, with any good slice counters. */
  lemma AloneInv(s: State, first: Task)
    requires first != IDLE && s.curr == first && s.ready == [first] && s.sleep == [] && s.started == {first} && s.exited == {}
    requires (forall k :: 0 <= k < |s.mutexes| ==> s.mutexes[k].waiters == []) && (forall k :: 0 <= k < |s.sems| ==> s.sems[k].waiters == [])
    requires forall t: Task :: 1 <= Slice(s, t) <= SLICE
    ensures Inv(s, map[first := InReady])
  {
    assert forall p: Place :: ListAt(s, p) == if p == InReady then [first] else [];
  }

  lemma InitialInv(first: Task, mutexes: seq<Mutex>, sems: seq<Sem>)
    requires first != IDLE
    requires (forall k :: 0 <= k < |mutexes| ==> mutexes[k].waiters == []) && (forall k :: 0 <= k < |sems| ==> sems[k].waiters == [])
    ensures Inv(Initial(first, mutexes, sems), map[first := InReady])
  {
    AloneInv(Initial(first, mutexes, sems), first);
  }

  /** On how many of the lists a task is: the running system has every live task on exactly one. */
  lemma OnExactlyOne(s: State, place: map<Task, Place>, t: Task)
    requires Inv(s, place)
    ensures t in s.started && t !in s.exited ==> exists p: Place :: t in ListAt(s, p) && forall q: Place :: t in ListAt(s, q) ==> q == p
    ensures t !in s.started || t in s.exited ==> forall p: Place :: t !in ListAt(s, p)
  {
    hide ListAt;
    assert t in place <==> t in s.started - s.exited;
    if t in s.started && t !in s.exited {
      assert t in ListAt(s, place[t]);
    } else {
      NotListed(s, place, t);
    }
  }

  lemma ExitedGrows(s: State, a: Step)
    requires Enabled(s, a)
    ensures s.exited <= Next(s, a).exited
  {
  }

  /** A task that has exited never runs again and is never on a list again. */
  lemma {:induction false} ExitedStaysOut(s: State, place: map<Task, Place>, steps: seq<Step>, t: Task)
    requires Inv(s, place) && CanRun(s, steps) && t in s.exited
    ensures var u := Run(s, steps); u.curr != t && forall p: Place :: t !in ListAt(u, p)
    decreases |steps|
  {
    hide Next;
    if |steps| == 0 {
      CurrIsReady(s, place);
    } else {
      var place1 := StepKeepsInv(s, place, steps[0]);
      ExitedGrows(s, steps[0]);
      ExitedStaysOut(Next(s, steps[0]), place1, steps[1..], t);
    }
  }

  /** sys_sleep keeps its caller on a list if and only if it asks for at least one tick. */
  lemma SleepKeepsTaskIff(s: State, place: map<Task, Place>, ms: nat)
    requires Inv(s, place) && s.curr != IDLE
    ensures (exists p: Place :: s.curr in ListAt(Sleep(s, ms), p)) <==> ms >= TICK_MS
  {
    hide NoDup;
    CurrIsReady(s, place);
    var t := Sleep(s, ms);
    if ms >= TICK_MS {
      assert s.curr in ListAt(t, InSleep);
    } else {
      forall p: Place
        ensures s.curr !in ListAt(t, p)
      {
        LeftFacts(s, place, p, s.curr, InReady);
        assert ListAt(t, p) == Left(s, p, s.curr, InReady);
      }
    }
  }

  /** Below one tick no account of places can be right afterwards: the caller is alive and on no list. */
  lemma ShortSleepBreaks(s: State, place: map<Task, Place>, ms: nat, place': map<Task, Place>)
    requires Inv(s, place) && s.curr != IDLE && ms < TICK_MS
    ensures !Inv(Sleep(s, ms), place')
  {
    hide ListAt, Counters, Without;
    SleepKeepsTaskIff(s, place, ms);
    CurrIsReady(s, place);
    var t := Sleep(s, ms);
    assert s.curr in s.started - s.exited by {
      assert s.curr in place.Keys;
    }
    assert t.started == s.started && t.exited == s.exited;
    if s.curr in place' {
      assert s.curr !in ListAt(t, place'[s.curr]);
    }
  }

  /** A concrete loss: the only task sleeps for five milliseconds and is on no list afterwards. */
  lemma ShortSleepLosesTask()
    ensures var s := Sleep(Initial(1, [], []), 5); s.curr == IDLE && s.ready == [] && s.sleep == [] && 1 in s.started - s.exited
  {
  }
}
