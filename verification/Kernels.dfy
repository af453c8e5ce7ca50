/**
 * The kernel's tasks, lists, mutexes and semaphores together, on linked nodes. The
 * scheduler's invariant of module SchedProofs is an invariant of these objects: it is
 * what makes every list_delete act on a list the node is on, and what makes every wait
 * list safe to use. Each entry of the kernel is proved to take its step of module Sched.
 */
module Kernels {
  import opened Options
  import opened Sync
  import opened Sched
  import opened SchedProofs
  import opened Lists
  import opened TaskKernel
  import opened SyncKernel

  /** A mutex with an owner is locked. */
  ghost predicate Held(s: State) {
    forall k :: 0 <= k < |s.mutexes| ==> s.mutexes[k].owner.Some? ==> s.mutexes[k].count > 0
  }

  lemma StepHeld(s: State, a: Step)
    requires Held(s) && Enabled(s, a)
    ensures Held(Next(s, a))
  {
    hide Without, Woken, Staying;
  }

  ghost predicate EmptyList(list: List)
    reads list, list.nodes
  {
    list.Valid() && list.nodes == []
  }

  class Kernel {
    const sched: Scheduler
    const mutexes: seq<MutexObj>
    const sems: seq<SemObj>
    ghost var place: map<Task, Place>

    // -------------------------------------------------------------- the objects

    ghost predicate IsWait(p: Place) {
      (p.InMutex? && p.k < |mutexes|) || (p.InSem? && p.k < |sems|)
    }

    ghost function WaitList(p: Place): List
      requires IsWait(p)
    {
      if p.InMutex? then mutexes[p.k].waitList else sems[p.k].waitList
    }

    /** What the scheduler's own steps may change. */
    ghost function RunRepr(): (r: set<object>)
      ensures sched in r && sched.ready in r && sched.sleep in r
      ensures forall i :: 0 <= i < |sched.table| ==> sched.table[i] in r && sched.table[i].runNode in r
    {
      {sched, sched.ready, sched.sleep}
      + (set i: nat | i < |sched.table| :: sched.table[i]) + (set i: nat | i < |sched.table| :: sched.table[i].runNode)
    }

    ghost function WaitRepr(): (r: set<object>)
      ensures forall i :: 0 <= i < |sched.table| ==> sched.table[i].waitNode in r
      ensures forall k :: 0 <= k < |mutexes| ==> mutexes[k] in r && mutexes[k].waitList in r
      ensures forall k :: 0 <= k < |sems| ==> sems[k] in r && sems[k].waitList in r
    {
      (set i: nat | i < |sched.table| :: sched.table[i].waitNode)
      + (set k: nat | k < |mutexes| :: mutexes[k]) + (set k: nat | k < |mutexes| :: mutexes[k].waitList)
      + (set k: nat | k < |sems| :: sems[k]) + (set k: nat | k < |sems| :: sems[k].waitList)
    }

    lemma Separate()
      requires Shape() && sched.TableOk()
      ensures RunRepr() !! WaitRepr()
    {
      forall k | 0 <= k < |mutexes|
        ensures mutexes[k].waitList != sched.ready && mutexes[k].waitList != sched.sleep
      {
        assert IsWait(InMutex(k)) && WaitList(InMutex(k)) == mutexes[k].waitList;
      }
      forall k | 0 <= k < |sems|
        ensures sems[k].waitList != sched.ready && sems[k].waitList != sched.sleep
      {
        assert IsWait(InSem(k)) && WaitList(InSem(k)) == sems[k].waitList;
      }
    }

    /** The lists are different objects. */
    ghost predicate Shape() {
      && (forall p: Place, q: Place :: IsWait(p) && IsWait(q) && p != q ==> WaitList(p) != WaitList(q))
      && (forall p: Place :: IsWait(p) ==> WaitList(p) != sched.ready && WaitList(p) != sched.sleep)
    }

    /** A wait list is linked through wait nodes. */
    ghost predicate WaitNodes(xs: seq<Node>) {
      forall i :: 0 <= i < |xs| ==> 0 < xs[i].task < |sched.table| && xs[i] == sched.table[xs[i].task].waitNode
    }

    ghost predicate OnlyRun(xs: seq<Node>) {
      forall i :: 0 <= i < |xs| ==> 0 < xs[i].task < |sched.table| && xs[i] == sched.table[xs[i].task].runNode
    }

    ghost predicate Structure()
      reads RunRepr(), WaitRepr()
    {
      && Shape() && sched.TableOk() && OnlyRun(sched.ready.nodes) && OnlyRun(sched.sleep.nodes) && sched.Valid()
      && (forall p: Place :: IsWait(p) ==> WaitNodes(WaitList(p).nodes))
      && (forall p: Place :: IsWait(p) ==> WaitList(p).Valid())
    }

    /** The state of module Sched that the objects stand for. */
    ghost function State(): State
      reads RunRepr(), WaitRepr()
    {
      sched.View().(mutexes := MutexViews(), sems := SemViews())
    }

    ghost function MutexViews(): (r: seq<Mutex>)
      reads mutexes, set k: nat | k < |mutexes| :: mutexes[k].waitList
      ensures |r| == |mutexes| && forall k :: 0 <= k < |mutexes| ==> r[k] == mutexes[k].View()
    {
      seq(|mutexes|, k requires 0 <= k < |mutexes| reads mutexes, (set j: nat | j < |mutexes| :: mutexes[j].waitList) => mutexes[k].View())
    }

    ghost function SemViews(): (r: seq<Sem>)
      reads sems, set k: nat | k < |sems| :: sems[k].waitList
      ensures |r| == |sems| && forall k :: 0 <= k < |sems| ==> r[k] == sems[k].View()
    {
      seq(|sems|, k requires 0 <= k < |sems| reads sems, (set j: nat | j < |sems| :: sems[j].waitList) => sems[k].View())
    }

    ghost predicate Valid()
      reads this, RunRepr(), WaitRepr()
    {
      Structure() && Inv(State(), place) && Held(State())
    }

    /** The first task runs alone, and nobody waits. */
    ghost predicate Alone(first: nat)
      reads RunRepr(), WaitRepr(), sched.ready.nodes, sched.sleep.nodes
    {
      && sched.Valid() && 0 < first < |sched.table| && sched.curr == first
      && sched.ready.nodes == [sched.table[first].runNode] && sched.sleep.nodes == []
      && (forall i :: 0 <= i < |sched.table| ==> sched.table[i].phase == (if i == first then Live else Created) && 1 <= sched.table[i].sliceTicks <= SLICE)
      && (forall k :: 0 <= k < |mutexes| ==> mutexes[k].owner == None)
      && (forall p: Place :: IsWait(p) ==> WaitList(p).nodes == [] && WaitList(p).Valid())
    }

    /** What task_manager_init and first_task_init leave. */
    constructor (sched: Scheduler, mutexes: seq<MutexObj>, sems: seq<SemObj>, first: nat)
      requires sched.Valid() && 0 < first < |sched.table| && sched.curr == first
      requires sched.ready.nodes == [sched.table[first].runNode] && sched.sleep.nodes == []
      requires forall i :: 0 <= i < |sched.table| ==> sched.table[i].phase == (if i == first then Live else Created) && 1 <= sched.table[i].sliceTicks <= SLICE
      requires forall k :: 0 <= k < |mutexes| ==> mutexes[k].owner == None && EmptyList(mutexes[k].waitList)
      requires forall k :: 0 <= k < |sems| ==> EmptyList(sems[k].waitList)
      requires forall k :: 0 <= k < |mutexes| ==> mutexes[k].waitList != sched.ready && mutexes[k].waitList != sched.sleep
      requires forall k :: 0 <= k < |sems| ==> sems[k].waitList != sched.ready && sems[k].waitList != sched.sleep
      requires forall j, k :: 0 <= j < k < |mutexes| ==> mutexes[j].waitList != mutexes[k].waitList
      requires forall j, k :: 0 <= j < k < |sems| ==> sems[j].waitList != sems[k].waitList
      requires forall j, k :: 0 <= j < |mutexes| && 0 <= k < |sems| ==> mutexes[j].waitList != sems[k].waitList
      ensures Valid() && this.sched == sched && this.mutexes == mutexes && this.sems == sems
    {
      this.sched, this.mutexes, this.sems := sched, mutexes, sems;
      place := map[first := InReady];
      new;
      hide List.Valid, Scheduler.Valid, RunRepr, WaitRepr, Structure, State, Inv, Held;
      Booted(first);
    }

    lemma Booted(first: nat)
      requires Alone(first) && Shape()
      ensures Structure() && Inv(State(), map[first := InReady]) && Held(State())
    {
      hide List.Valid;
      RunOnly();
      var s := State();
      assert s.started == {first} && s.exited == {} && s.ready == [first];
      assert forall k :: 0 <= k < |mutexes| ==> mutexes[k].waitList == WaitList(InMutex(k)) && IsWait(InMutex(k));
      assert forall k :: 0 <= k < |sems| ==> sems[k].waitList == WaitList(InSem(k)) && IsWait(InSem(k));
      AloneInv(s, first);
    }

    // -------------------------------------------------------------- what the invariant gives

    /** The running task is on the ready list. */
    lemma CurrentRuns()
      requires Valid()
      ensures sched.Running() && sched.curr < |sched.table| && sched.curr == State().curr
      ensures sched.curr != IDLE ==> sched.table[sched.curr].phase == Live
    {
      hide List.Valid;
      CurrIsReady(State(), place);
      if sched.curr != IDLE {
        var ids := Ids(sched.ready.nodes);
        assert ids[0] == sched.curr && sched.ready.nodes[0].task == sched.curr;
        assert sched.ready.nodes[0] in sched.ready.nodes;
        assert sched.curr in place.Keys;
      }
    }

    /** The nodes on the run lists are among the scheduler's objects. */
    lemma RunNodesIn()
      requires OnlyRun(sched.ready.nodes) && OnlyRun(sched.sleep.nodes)
      ensures forall i :: 0 <= i < |sched.ready.nodes| ==> sched.ready.nodes[i] in RunRepr()
      ensures forall i :: 0 <= i < |sched.sleep.nodes| ==> sched.sleep.nodes[i] in RunRepr()
    {
      hide RunRepr;
    }

    lemma RunOnly()
      requires sched.Valid()
      ensures sched.TableOk() && OnlyRun(sched.ready.nodes) && OnlyRun(sched.sleep.nodes)
    {
      hide List.Valid;
      forall i | 0 <= i < |sched.ready.nodes|
        ensures 0 < sched.ready.nodes[i].task < |sched.table| && sched.ready.nodes[i] == sched.table[sched.ready.nodes[i].task].runNode
      {
        assert sched.ready.nodes[i] in sched.ready.nodes;
      }
      forall i | 0 <= i < |sched.sleep.nodes|
        ensures 0 < sched.sleep.nodes[i].task < |sched.table| && sched.sleep.nodes[i] == sched.table[sched.sleep.nodes[i].task].runNode
      {
        assert sched.sleep.nodes[i] in sched.sleep.nodes;
      }
    }

    /** No mutex, semaphore, wait list or wait node was touched. */
    twostate predicate WaitObjectsSame()
      reads WaitRepr()
    {
      && (forall i :: 0 <= i < |sched.table| ==> unchanged(sched.table[i].waitNode))
      && (forall k :: 0 <= k < |mutexes| ==> unchanged(mutexes[k]) && unchanged(mutexes[k].waitList))
      && (forall k :: 0 <= k < |sems| ==> unchanged(sems[k]) && unchanged(sems[k].waitList))
    }

    /** A step that leaves the wait lists and their nodes alone keeps the structure, and the mutexes and semaphores. */
    twostate lemma WaitsSame()
      requires old(Structure()) && sched.Valid() && WaitObjectsSame()
      ensures Structure() && MutexViews() == old(MutexViews()) && SemViews() == old(SemViews())
    {
      hide List.Valid, Scheduler.Valid, OnlyRun;
      RunOnly();
      forall p: Place | IsWait(p)
        ensures WaitList(p).Valid() && WaitNodes(WaitList(p).nodes)
      {
        SameList(p);
      }
      forall k | 0 <= k < |mutexes|
        ensures mutexes[k].View() == old(mutexes[k].View())
      {
      }
      forall k | 0 <= k < |sems|
        ensures sems[k].View() == old(sems[k].View())
      {
      }
    }

    twostate lemma SameList(p: Place)
      requires old(Structure()) && IsWait(p) && WaitObjectsSame()
      ensures unchanged(WaitList(p)) && WaitList(p).Valid() && WaitNodes(WaitList(p).nodes)
    {
      hide List.Valid, Scheduler.Valid, WaitRepr;
      Untouched(WaitList(p));
    }

    // -------------------------------------------------------------- scheduling

    /** A task that is on no list has its run node on neither run list. */
    lemma NotRunning(t: nat)
      requires Valid() && 0 < t < |sched.table| && t !in State().started
      ensures sched.table[t].runNode !in sched.ready.nodes && sched.table[t].runNode !in sched.sleep.nodes && sched.table[t].phase == Created
    {
      hide List.Valid;
      var s := State();
      NotListed(s, place, t);
      assert t !in ListAt(s, InReady) && t !in ListAt(s, InSleep);
      assert forall i :: 0 <= i < |sched.ready.nodes| ==> s.ready[i] == sched.ready.nodes[i].task && s.ready[i] in s.ready;
      assert forall i :: 0 <= i < |sched.sleep.nodes| ==> s.sleep[i] == sched.sleep.nodes[i].task && s.sleep[i] in s.sleep;
    }

    method RunTick()
      requires sched.Valid() && sched.Running() && OnlyRun(sched.ready.nodes) && OnlyRun(sched.sleep.nodes)
      modifies RunRepr()
      ensures sched.Valid() && sched.View() == Sched.Tick(old(sched.View()))
    {
      hide List.Valid, Scheduler.RunNodes, Scheduler.View, RunRepr, Sched.Tick;
      RunNodesIn();
      sched.TickHead();
    }

    method RunScan()
      requires sched.Valid() && sched.Running() && OnlyRun(sched.ready.nodes) && OnlyRun(sched.sleep.nodes)
      modifies RunRepr()
      ensures sched.Valid() && sched.View() == Sched.Scan(old(sched.View()))
    {
      hide List.Valid, Scheduler.RunNodes, Scheduler.View, RunRepr, Sched.Scan;
      RunNodesIn();
      sched.ScanSleepers();
    }

    method RunYield()
      requires sched.Valid() && sched.Running() && OnlyRun(sched.ready.nodes) && OnlyRun(sched.sleep.nodes)
      modifies RunRepr()
      ensures sched.Valid() && sched.View() == Sched.Yield(old(sched.View()))
    {
      hide List.Valid, Scheduler.RunNodes, Scheduler.View, RunRepr, Sched.Yield;
      RunNodesIn();
      sched.YieldCpu();
    }

    method RunSleep(ms: nat)
      requires sched.Valid() && sched.Running() && OnlyRun(sched.ready.nodes) && OnlyRun(sched.sleep.nodes) && sched.curr != IDLE
      modifies RunRepr()
      ensures sched.Valid() && sched.View() == Sched.Sleep(old(sched.View()), ms)
    {
      hide List.Valid, Scheduler.RunNodes, Scheduler.View, RunRepr, Sched.Sleep;
      RunNodesIn();
      sched.SleepFor(ms);
    }

    method RunExit()
      requires sched.Valid() && sched.Running() && OnlyRun(sched.ready.nodes) && OnlyRun(sched.sleep.nodes) && sched.curr != IDLE && sched.curr < |sched.table| && sched.table[sched.curr].phase == Live
      modifies RunRepr()
      ensures sched.Valid() && sched.View() == Sched.Exit(old(sched.View()))
    {
      hide List.Valid, Scheduler.RunNodes, Scheduler.View, RunRepr, Sched.Exit;
      RunNodesIn();
      sched.ExitCurrent();
    }

    method RunStart(t: nat)
      requires sched.Valid() && sched.Running() && OnlyRun(sched.ready.nodes) && OnlyRun(sched.sleep.nodes) && 0 < t < |sched.table| && sched.table[t].phase == Created
      requires sched.table[t].runNode !in sched.ready.nodes && sched.table[t].runNode !in sched.sleep.nodes
      modifies RunRepr()
      ensures sched.Valid() && sched.View() == Sched.Start(old(sched.View()), t)
    {
      hide List.Valid, Scheduler.RunNodes, Scheduler.View, RunRepr, Sched.Start;
      RunNodesIn();
      sched.Begin(t);
    }

    /** The timer interrupt up to its first dispatch. */
    method Tick()
      requires Valid() && Enabled(State(), DoTick)
      modifies this`place, RunRepr()
      ensures Valid() && State() == Next(old(State()), DoTick)
    {
      hide List.Valid, Scheduler.Valid, Scheduler.View, Inv, RunRepr, WaitRepr, MutexViews, SemViews, Next, Shape, OnlyRun, WaitNodes, Held;
      ghost var s0 := State();
      CurrentRuns();
      Separate();
      RunTick();
      WaitsSame();
      Commutes(old(sched.View()), s0, DoTick);
      ghost var place' := StepKeepsInv(s0, old(place), DoTick);
      StepHeld(s0, DoTick);
      place := place';
    }

    /** The rest of the timer interrupt. */
    method Scan()
      requires Valid() && Enabled(State(), DoScan)
      modifies this`place, RunRepr()
      ensures Valid() && State() == Next(old(State()), DoScan)
    {
      hide List.Valid, Scheduler.Valid, Scheduler.View, Inv, RunRepr, WaitRepr, MutexViews, SemViews, Next, Shape, OnlyRun, WaitNodes, Held;
      ghost var s0 := State();
      CurrentRuns();
      Separate();
      RunScan();
      WaitsSame();
      Commutes(old(sched.View()), s0, DoScan);
      ghost var place' := StepKeepsInv(s0, old(place), DoScan);
      StepHeld(s0, DoScan);
      place := place';
    }

    /** sys_yield. */
    method Yield()
      requires Valid() && Enabled(State(), DoYield)
      modifies this`place, RunRepr()
      ensures Valid() && State() == Next(old(State()), DoYield)
    {
      hide List.Valid, Scheduler.Valid, Scheduler.View, Inv, RunRepr, WaitRepr, MutexViews, SemViews, Next, Shape, OnlyRun, WaitNodes, Held;
      ghost var s0 := State();
      CurrentRuns();
      Separate();
      RunYield();
      WaitsSame();
      Commutes(old(sched.View()), s0, DoYield);
      ghost var place' := StepKeepsInv(s0, old(place), DoYield);
      StepHeld(s0, DoYield);
      place := place';
    }

    /** sys_sleep. Below one tick the invariant is lost for good: no choice of places restores it. */
    method Sleep(ms: nat)
      requires Valid() && Enabled(State(), DoSleep(ms))
      modifies this`place, RunRepr()
      ensures State() == Next(old(State()), DoSleep(ms)) && Structure()
      ensures ms >= TICK_MS ==> Valid()
      ensures ms < TICK_MS ==> forall any: map<Task, Place> :: !Inv(State(), any)
    {
      hide List.Valid, Scheduler.Valid, Scheduler.View, Inv, RunRepr, WaitRepr, MutexViews, SemViews, Next, Shape, OnlyRun, WaitNodes, Held;
      ghost var s0 := State();
      CurrentRuns();
      Separate();
      RunSleep(ms);
      WaitsSame();
      Commutes(old(sched.View()), s0, DoSleep(ms));
      if ms >= TICK_MS {
        ghost var place' := StepKeepsInv(s0, old(place), DoSleep(ms));
        StepHeld(s0, DoSleep(ms));
        place := place';
      } else {
        NoPlaces(s0, old(place), ms);
      }
    }

    /** The protected part of sys_exit. */
    method Exit()
      requires Valid() && Enabled(State(), DoExit)
      modifies this`place, RunRepr()
      ensures Valid() && State() == Next(old(State()), DoExit)
    {
      hide List.Valid, Scheduler.Valid, Scheduler.View, Inv, RunRepr, WaitRepr, MutexViews, SemViews, Next, Shape, OnlyRun, WaitNodes, Held;
      ghost var s0 := State();
      CurrentRuns();
      Separate();
      RunExit();
      WaitsSame();
      Commutes(old(sched.View()), s0, DoExit);
      ghost var place' := StepKeepsInv(s0, old(place), DoExit);
      StepHeld(s0, DoExit);
      place := place';
    }

    /** task_start of a task in the table. */
    method StartTask(t: nat)
      requires Valid() && Enabled(State(), DoStart(t)) && t < |sched.table|
      modifies this`place, RunRepr()
      ensures Valid() && State() == Next(old(State()), DoStart(t))
    {
      hide List.Valid, Scheduler.Valid, Scheduler.View, Inv, RunRepr, WaitRepr, MutexViews, SemViews, Next, Shape, OnlyRun, WaitNodes, Held;
      ghost var s0 := State();
      CurrentRuns();
      NotRunning(t);
      Separate();
      RunStart(t);
      WaitsSame();
      Commutes(old(sched.View()), s0, DoStart(t));
      ghost var place' := StepKeepsInv(s0, old(place), DoStart(t));
      StepHeld(s0, DoStart(t));
      place := place';
    }

    // -------------------------------------------------------------- blocking

    lemma ListHere(p: Place)
      requires IsWait(p)
      ensures ListAt(State(), p) == Ids(WaitList(p).nodes)
    {
    }

    /** Who is on a wait list is on no other list. */
    lemma WaitsHere(p: Place, n: Node)
      requires Valid() && IsWait(p) && n in WaitList(p).nodes
      ensures n.task in place && place[n.task] == p
    {
      hide List.Valid, Scheduler.Valid, ListAt;
      var xs := WaitList(p).nodes;
      var i :| 0 <= i < |xs| && xs[i] == n;
      ListHere(p);
      assert Ids(xs)[i] == n.task && n.task in ListAt(State(), p);
    }

    /** The invariant makes every wait list fit for use. */
    lemma WaitOk(p: Place)
      requires Valid() && IsWait(p)
      ensures WaitListOk(sched, WaitList(p))
      ensures sched.curr != IDLE && sched.curr < |sched.table| ==> sched.table[sched.curr].waitNode !in WaitList(p).nodes
    {
      hide List.Valid, Inv;
      forall n | n in WaitList(p).nodes
        ensures 0 < n.task < |sched.table| && n == sched.table[n.task].waitNode
        ensures sched.table[n.task].runNode !in sched.ready.nodes && sched.table[n.task].runNode !in sched.sleep.nodes && n.task != sched.curr
      {
        WaitsHere(p, n);
        OffRunLists(n.task, p);
      }
    }

    lemma OffRunLists(t: nat, p: Place)
      requires Valid() && IsWait(p) && t < |sched.table| && t in place && place[t] == p
      ensures sched.table[t].runNode !in sched.ready.nodes && sched.table[t].runNode !in sched.sleep.nodes && t != sched.curr
    {
      hide List.Valid;
      var s := State();
      CurrIsReady(s, place);
      assert t !in ListAt(s, InReady) && t !in ListAt(s, InSleep);
      assert forall i :: 0 <= i < |sched.ready.nodes| ==> s.ready[i] == sched.ready.nodes[i].task && s.ready[i] in s.ready;
      assert forall i :: 0 <= i < |sched.sleep.nodes| ==> s.sleep[i] == sched.sleep.nodes[i].task && s.sleep[i] in s.sleep;
    }

    lemma WaitNodesIn(p: Place)
      requires Structure() && IsWait(p)
      ensures forall i :: 0 <= i < |WaitList(p).nodes| ==> WaitList(p).nodes[i] in WaitRepr()
    {
      hide List.Valid, Scheduler.Valid, WaitRepr, OnlyRun;
      assert WaitNodes(WaitList(p).nodes);
    }

    lemma Myself()
      ensures this !in RunRepr() && this !in WaitRepr()
    {
    }

    lemma Unpack()
      requires Structure()
      ensures sched.Valid() && OnlyRun(sched.ready.nodes) && OnlyRun(sched.sleep.nodes)
    {
    }

    /** What a step on the wait list p cannot reach. */
    lemma Others(p: Place)
      requires Valid() && IsWait(p)
      ensures forall q: Place :: IsWait(q) && q != p ==> WaitList(q) !in RunRepr() && WaitList(q) != WaitList(p)
      ensures forall q: Place, i: int :: IsWait(q) && q != p && 0 <= i < |WaitList(q).nodes| ==>
                && WaitList(q).nodes[i] !in RunRepr() && WaitList(q).nodes[i] !in WaitList(p).nodes
                && (sched.curr < |sched.table| && sched.curr != IDLE ==> WaitList(q).nodes[i] != sched.table[sched.curr].waitNode)
      ensures forall j :: 0 <= j < |mutexes| ==> mutexes[j] !in RunRepr() && (p.InMutex? && j != p.k ==> mutexes[j] != mutexes[p.k])
      ensures forall j :: 0 <= j < |sems| ==> sems[j] !in RunRepr() && (p.InSem? && j != p.k ==> sems[j] != sems[p.k])
    {
      hide List.Valid, Scheduler.Valid, Inv, RunRepr, WaitRepr, OnlyRun;
      Separate();
      forall j | 0 <= j < |mutexes|
        ensures mutexes[j] !in RunRepr() && (p.InMutex? && j != p.k ==> mutexes[j] != mutexes[p.k])
      {
        assert mutexes[j] in WaitRepr() && WaitList(InMutex(j)) == mutexes[j].waitList;
      }
      forall j | 0 <= j < |sems|
        ensures sems[j] !in RunRepr() && (p.InSem? && j != p.k ==> sems[j] != sems[p.k])
      {
        assert sems[j] in WaitRepr() && WaitList(InSem(j)) == sems[j].waitList;
      }
      forall q: Place | IsWait(q) && q != p
        ensures WaitList(q) in WaitRepr()
      {
      }
      forall q: Place, i: int | IsWait(q) && q != p && 0 <= i < |WaitList(q).nodes|
        ensures WaitList(q).nodes[i] !in RunRepr() && WaitList(q).nodes[i] !in WaitList(p).nodes
        ensures sched.curr < |sched.table| && sched.curr != IDLE ==> WaitList(q).nodes[i] != sched.table[sched.curr].waitNode
      {
        var n := WaitList(q).nodes[i];
        assert n in WaitRepr();
        WaitsHere(q, n);
        WaitOk(q);
        if n in WaitList(p).nodes {
          WaitsHere(p, n);
        }
      }
    }

    /** The wait lists other than p, and their mutexes and semaphores, were not touched. */
    twostate predicate OthersSame(p: Place)
      reads *
    {
      && (forall q: Place :: IsWait(q) && q != p ==> unchanged(WaitList(q)))
      && (forall q: Place, i: int :: IsWait(q) && q != p && 0 <= i < |old(WaitList(q).nodes)| ==> SameNode(old(WaitList(q).nodes)[i]))
      && (forall k :: 0 <= k < |mutexes| && p != InMutex(k) ==> unchanged(mutexes[k]))
      && (forall k :: 0 <= k < |sems| && p != InSem(k) ==> unchanged(sems[k]))
    }

    twostate predicate SameNode(n: Node)
      reads n
    {
      unchanged(n)
    }

    /** A step on the wait list p keeps the structure and the other mutexes and semaphores. */
    twostate lemma WaitStepped(p: Place)
      requires IsWait(p) && old(Structure()) && sched.Valid() && WaitListOk(sched, WaitList(p)) && OthersSame(p)
      ensures Structure()
      ensures forall k :: 0 <= k < |mutexes| && p != InMutex(k) ==> mutexes[k].View() == old(mutexes[k].View())
      ensures forall k :: 0 <= k < |sems| && p != InSem(k) ==> sems[k].View() == old(sems[k].View())
    {
      hide List.Valid, Scheduler.Valid, OnlyRun;
      RunOnly();
      forall q: Place | IsWait(q)
        ensures WaitList(q).Valid() && WaitNodes(WaitList(q).nodes)
      {
        if q == p {
          forall i | 0 <= i < |WaitList(p).nodes|
            ensures 0 < WaitList(p).nodes[i].task < |sched.table| && WaitList(p).nodes[i] == sched.table[WaitList(p).nodes[i].task].waitNode
          {
            assert WaitList(p).nodes[i] in WaitList(p).nodes;
          }
        } else {
          forall n | n in WaitList(q).nodes
            ensures unchanged(n)
          {
            var i :| 0 <= i < |WaitList(q).nodes| && WaitList(q).nodes[i] == n;
            assert SameNode(WaitList(q).nodes[i]);
          }
          Untouched(WaitList(q));
        }
      }
      forall k | 0 <= k < |mutexes| && p != InMutex(k)
        ensures mutexes[k].View() == old(mutexes[k].View())
      {
        assert WaitList(InMutex(k)) == mutexes[k].waitList;
      }
      forall k | 0 <= k < |sems| && p != InSem(k)
        ensures sems[k].View() == old(sems[k].View())
      {
        assert WaitList(InSem(k)) == sems[k].waitList;
      }
    }

    method RunLock(k: nat)
      requires k < |mutexes| && sched.Valid() && OnlyRun(sched.ready.nodes) && OnlyRun(sched.sleep.nodes) && WaitListOk(sched, mutexes[k].waitList)
      requires sched.Running() && sched.curr != IDLE && sched.table[sched.curr].waitNode !in mutexes[k].waitList.nodes
      modifies RunRepr(), mutexes[k], mutexes[k].waitList, mutexes[k].waitList.nodes, sched.table[sched.curr].waitNode
      ensures sched.Valid() && WaitListOk(sched, mutexes[k].waitList) && mutexes[k].View() == LockMutex(old(mutexes[k].View()), old(sched.curr))
      ensures sched.View() == if old(mutexes[k].count) == 0 || old(mutexes[k].owner) == Some(old(sched.curr)) then old(sched.View()) else Dispatch(SetBlock(old(sched.View()), old(sched.curr)))
    {
      hide List.Valid, Scheduler.RunNodes, Scheduler.View, RunRepr, Dispatch, SetBlock, SetReady;
      RunNodesIn();
      mutexes[k].Acquire(sched);
    }

    /** mutex_lock. */
    method Lock(k: nat)
      requires Valid() && Enabled(State(), DoLock(k))
      modifies this`place, RunRepr(), WaitRepr()
      ensures Valid() && State() == Next(old(State()), DoLock(k))
    {
      hide List.Valid, Scheduler.Valid, Scheduler.View, Inv, RunRepr, WaitRepr, WaitListOk, Structure, MutexViews, SemViews, Dispatch, SetBlock, LockMutex, Next, Held;
      ghost var s0, p := State(), InMutex(k);
      Unpack();
      WaitNodesIn(p);
      Myself();
      CurrentRuns();
      WaitOk(p);
      Others(p);
      RunLock(k);
      WaitStepped(p);
      assert MutexViews() == old(MutexViews())[k := LockMutex(s0.mutexes[k], s0.curr)] && SemViews() == old(SemViews());
      LockCommutes(old(sched.View()), s0, k);
      ghost var place' := StepKeepsInv(s0, old(place), DoLock(k));
      StepHeld(s0, DoLock(k));
      place := place';
    }

    method RunUnlock(k: nat)
      requires k < |mutexes| && sched.Valid() && OnlyRun(sched.ready.nodes) && OnlyRun(sched.sleep.nodes) && WaitListOk(sched, mutexes[k].waitList)
      requires mutexes[k].owner == Some(sched.curr) ==> mutexes[k].count > 0
      modifies RunRepr(), mutexes[k], mutexes[k].waitList, mutexes[k].waitList.nodes
      ensures sched.Valid() && WaitListOk(sched, mutexes[k].waitList) && mutexes[k].View() == UnlockMutex(old(mutexes[k].View()), old(sched.curr))
      ensures sched.View() == if old(mutexes[k].owner) == Some(old(sched.curr)) && old(mutexes[k].count) == 1 && |old(mutexes[k].waitList.nodes)| > 0
                              then Dispatch(SetReady(old(sched.View()), old(mutexes[k].waitList.nodes[0]).task)) else old(sched.View())
    {
      hide List.Valid, Scheduler.RunNodes, Scheduler.View, RunRepr, Dispatch, SetBlock, SetReady;
      RunNodesIn();
      mutexes[k].Release(sched);
    }

    /** mutex_unlock. */
    method Unlock(k: nat)
      requires Valid() && Enabled(State(), DoUnlock(k))
      modifies this`place, RunRepr(), WaitRepr()
      ensures Valid() && State() == Next(old(State()), DoUnlock(k))
    {
      hide List.Valid, Scheduler.Valid, Scheduler.View, Inv, RunRepr, WaitRepr, WaitListOk, Structure, MutexViews, SemViews, Dispatch, SetReady, UnlockMutex, Next, Held;
      ghost var s0, p := State(), InMutex(k);
      Unpack();
      WaitNodesIn(p);
      Myself();
      CurrentRuns();
      WaitOk(p);
      Others(p);
      HeldAt(k);
      RunUnlock(k);
      WaitStepped(p);
      assert MutexViews() == old(MutexViews())[k := UnlockMutex(s0.mutexes[k], s0.curr)] && SemViews() == old(SemViews());
      UnlockCommutes(old(sched.View()), s0, k);
      ghost var place' := StepKeepsInv(s0, old(place), DoUnlock(k));
      StepHeld(s0, DoUnlock(k));
      place := place';
    }

    method RunWait(k: nat)
      requires k < |sems| && sched.Valid() && OnlyRun(sched.ready.nodes) && OnlyRun(sched.sleep.nodes) && WaitListOk(sched, sems[k].waitList)
      requires sched.Running() && sched.curr != IDLE && sched.table[sched.curr].waitNode !in sems[k].waitList.nodes
      modifies RunRepr(), sems[k], sems[k].waitList, sems[k].waitList.nodes, sched.table[sched.curr].waitNode
      ensures sched.Valid() && WaitListOk(sched, sems[k].waitList) && sems[k].View() == CallSem(old(sems[k].View()), Sync.Wait(old(sched.curr)))
      ensures sched.View() == if old(sems[k].count) > 0 then old(sched.View()) else Dispatch(SetBlock(old(sched.View()), old(sched.curr)))
    {
      hide List.Valid, Scheduler.RunNodes, Scheduler.View, RunRepr, Dispatch, SetBlock, SetReady;
      RunNodesIn();
      sems[k].Down(sched);
    }

    /** sem_wait. */
    method WaitFor(k: nat)
      requires Valid() && Enabled(State(), DoWait(k))
      modifies this`place, RunRepr(), WaitRepr()
      ensures Valid() && State() == Next(old(State()), DoWait(k))
    {
      hide List.Valid, Scheduler.Valid, Scheduler.View, Inv, RunRepr, WaitRepr, WaitListOk, Structure, MutexViews, SemViews, Dispatch, SetBlock, CallSem, Next, Held;
      ghost var s0, p := State(), InSem(k);
      Unpack();
      WaitNodesIn(p);
      Myself();
      CurrentRuns();
      WaitOk(p);
      Others(p);
      RunWait(k);
      WaitStepped(p);
      assert SemViews() == old(SemViews())[k := CallSem(s0.sems[k], Sync.Wait(s0.curr))] && MutexViews() == old(MutexViews());
      WaitCommutes(old(sched.View()), s0, k);
      ghost var place' := StepKeepsInv(s0, old(place), DoWait(k));
      StepHeld(s0, DoWait(k));
      place := place';
    }

    method RunNotify(k: nat)
      requires k < |sems| && sched.Valid() && OnlyRun(sched.ready.nodes) && OnlyRun(sched.sleep.nodes) && WaitListOk(sched, sems[k].waitList)
      modifies RunRepr(), sems[k], sems[k].waitList, sems[k].waitList.nodes
      ensures sched.Valid() && WaitListOk(sched, sems[k].waitList) && sems[k].View() == CallSem(old(sems[k].View()), Sync.Notify)
      ensures sched.View() == if |old(sems[k].waitList.nodes)| > 0 then Dispatch(SetReady(old(sched.View()), old(sems[k].waitList.nodes[0]).task)) else old(sched.View())
    {
      hide List.Valid, Scheduler.RunNodes, Scheduler.View, RunRepr, Dispatch, SetBlock, SetReady;
      RunNodesIn();
      sems[k].Up(sched);
    }

    /** sem_notify, also from the keyboard interrupt. */
    method Notify(k: nat)
      requires Valid() && Enabled(State(), DoNotify(k))
      modifies this`place, RunRepr(), WaitRepr()
      ensures Valid() && State() == Next(old(State()), DoNotify(k))
    {
      hide List.Valid, Scheduler.Valid, Scheduler.View, Inv, RunRepr, WaitRepr, WaitListOk, Structure, MutexViews, SemViews, Dispatch, SetReady, CallSem, Next, Held;
      ghost var s0, p := State(), InSem(k);
      Unpack();
      WaitNodesIn(p);
      Myself();
      CurrentRuns();
      WaitOk(p);
      Others(p);
      RunNotify(k);
      WaitStepped(p);
      assert SemViews() == old(SemViews())[k := CallSem(s0.sems[k], Sync.Notify)] && MutexViews() == old(MutexViews());
      NotifyCommutes(old(sched.View()), s0, k);
      ghost var place' := StepKeepsInv(s0, old(place), DoNotify(k));
      StepHeld(s0, DoNotify(k));
      place := place';
    }

    lemma HeldAt(k: nat)
      requires Held(State()) && k < |mutexes|
      ensures mutexes[k].owner.Some? ==> mutexes[k].count > 0
    {
      assert State().mutexes[k] == mutexes[k].View();
    }
  }

  lemma NoPlaces(s: State, place: map<Task, Place>, ms: nat)
    requires Inv(s, place) && s.curr != IDLE && ms < TICK_MS
    ensures forall any: map<Task, Place> :: !Inv(Next(s, DoSleep(ms)), any)
  {
    hide Inv;
    forall any: map<Task, Place>
      ensures !Inv(Next(s, DoSleep(ms)), any)
    {
      ShortSleepBreaks(s, place, ms, any);
    }
  }

  predicate Scheduling(a: Step) {
    a.DoTick? || a.DoScan? || a.DoYield? || a.DoSleep? || a.DoExit? || a.DoStart?
  }

  /** Scheduling does not look at mutexes and semaphores. */
  lemma Commutes(v: State, s: State, a: Step)
    requires s == v.(mutexes := s.mutexes, sems := s.sems) && Enabled(s, a) && Scheduling(a)
    ensures Enabled(v, a) && Next(s, a) == Next(v, a).(mutexes := s.mutexes, sems := s.sems)
    ensures Next(v, a) == match a
                          case DoTick => Sched.Tick(v)
                          case DoScan => Sched.Scan(v)
                          case DoYield => Sched.Yield(v)
                          case DoSleep(ms) => Sched.Sleep(v, ms)
                          case DoExit => Sched.Exit(v)
                          case DoStart(t) => Sched.Start(v, t)
                          case _ => v
  {
    hide Without, Woken, Staying;
    if a.DoScan? {
      ScanSame(v, s, v.sleep);
    }
  }

  /** mutex_lock changes its mutex, and the run lists as told. */
  lemma LockCommutes(v: State, s: State, k: nat)
    requires s == v.(mutexes := s.mutexes, sems := s.sems) && Enabled(s, DoLock(k))
    ensures var m := s.mutexes[k];
            var u := if m.count == 0 || m.owner == Some(s.curr) then v else Dispatch(SetBlock(v, s.curr));
            Next(s, DoLock(k)) == u.(mutexes := s.mutexes[k := LockMutex(m, s.curr)], sems := s.sems)
  {
    hide Without, LockMutex;
  }

  lemma UnlockCommutes(v: State, s: State, k: nat)
    requires s == v.(mutexes := s.mutexes, sems := s.sems) && Enabled(s, DoUnlock(k))
    ensures var m := s.mutexes[k];
            var u := if m.owner == Some(s.curr) && m.count == 1 && |m.waiters| > 0 then Dispatch(SetReady(v, m.waiters[0])) else v;
            Next(s, DoUnlock(k)) == u.(mutexes := s.mutexes[k := UnlockMutex(m, s.curr)], sems := s.sems)
  {
    hide UnlockMutex;
  }

  lemma WaitCommutes(v: State, s: State, k: nat)
    requires s == v.(mutexes := s.mutexes, sems := s.sems) && Enabled(s, DoWait(k))
    ensures var u := if s.sems[k].count > 0 then v else Dispatch(SetBlock(v, s.curr));
            Next(s, DoWait(k)) == u.(mutexes := s.mutexes, sems := s.sems[k := CallSem(s.sems[k], Sync.Wait(s.curr))])
  {
    hide Without, CallSem;
  }

  lemma NotifyCommutes(v: State, s: State, k: nat)
    requires s == v.(mutexes := s.mutexes, sems := s.sems) && Enabled(s, DoNotify(k))
    ensures var ws := s.sems[k].waiters;
            var u := if |ws| > 0 then Dispatch(SetReady(v, ws[0])) else v;
            Next(s, DoNotify(k)) == u.(mutexes := s.mutexes, sems := s.sems[k := CallSem(s.sems[k], Sync.Notify)])
  {
    hide CallSem;
  }

  lemma {:induction false} ScanSame(v: State, s: State, xs: seq<Task>)
    requires s.sleepTicks == v.sleepTicks
    ensures Woken(s, xs) == Woken(v, xs) && Staying(s, xs) == Staying(v, xs)
    decreases |xs|
  {
    if |xs| > 0 {
      ScanSame(v, s, xs[1..]);
    }
  }
}
