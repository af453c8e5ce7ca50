/**
 * task.c as it runs (src/kernel/task.c:223-349): the ready and sleep lists are
 * linked lists over the tasks' run nodes, and the tick counters are fields of the
 * tasks. Each method is proved to do to the lists what the function of the same
 * name in module Sched says.
 */
module TaskKernel {
  import opened Sync
  import opened Sched
  import opened Lists

  /** What matters of a task's state field: before task_start, after it, and after sys_exit. */
  datatype Phase = Created | Live | Zombie

  class TaskObj {
    const id: nat
    const runNode: Node
    const waitNode: Node
    var sliceTicks: int
    var sleepTicks: int
    var phase: Phase

    /** The fields task_init sets that scheduling uses. */
    constructor (id: nat)
      ensures this.id == id && runNode.task == id && waitNode.task == id && runNode != waitNode
      ensures fresh(runNode) && fresh(waitNode) && sliceTicks == SLICE && sleepTicks == 0 && phase == Created
    {
      this.id := id;
      runNode := new Node(id);
      waitNode := new Node(id);
      sliceTicks, sleepTicks, phase := SLICE, 0, Created;
    }
  }

  ghost predicate AllIn(xs: seq<Node>, nodes: set<Node>) {
    forall i :: 0 <= i < |xs| ==> xs[i] in nodes
  }

  /** The task numbers of a list. */
  ghost function Ids(xs: seq<Node>): (r: seq<Task>)
    ensures |r| == |xs| && forall i :: 0 <= i < |xs| ==> r[i] == xs[i].task
  {
    seq(|xs|, i requires 0 <= i < |xs| => xs[i].task)
  }

  lemma IdsAppend(xs: seq<Node>, ys: seq<Node>)
    ensures Ids(xs + ys) == Ids(xs) + Ids(ys)
  {
  }

  lemma {:induction false} IdsRemove(xs: seq<Node>, n: Node)
    requires forall m :: m in xs && m.task == n.task ==> m == n
    ensures Ids(RemoveNode(xs, n)) == Without(Ids(xs), n.task)
    decreases |xs|
  {
    if |xs| > 0 {
      assert Ids(xs)[0] == xs[0].task && Ids(xs)[1..] == Ids(xs[1..]);
      assert xs[0] in xs;
      if xs[0] != n {
        IdsRemove(xs[1..], n);
        IdsAppend([xs[0]], RemoveNode(xs[1..], n));
      }
    }
  }

  lemma {:induction false} ScanAppend(s: State, xs: seq<Task>, t: Task)
    ensures Woken(s, xs + [t]) == Woken(s, xs) + if SleepTicks(s, t) == 1 then [t] else []
    ensures Staying(s, xs + [t]) == Staying(s, xs) + if SleepTicks(s, t) == 1 then [] else [t]
    decreases |xs|
  {
    hide SleepTicks;
    if |xs| == 0 {
      assert xs + [t] == [t] && [t][1..] == [];
    } else {
      assert (xs + [t])[1..] == xs[1..] + [t] && (xs + [t])[0] == xs[0];
      ScanAppend(s, xs[1..], t);
    }
  }

  /** The sleep counters after the tasks `ids` were counted down. */
  function CountedDown(s: State, ids: seq<Task>): map<Task, int> {
    s.sleepTicks + (map t | t in ids :: SleepTicks(s, t) - 1)
  }

  lemma CountDownStep(s: State, ids: seq<Task>, t: Task)
    ensures CountedDown(s, ids + [t]) == CountedDown(s, ids)[t := SleepTicks(s, t) - 1]
  {
    assert forall u :: u in ids + [t] <==> u in ids || u == t;
  }

  lemma ScanStart(s: State)
    ensures Staying(s, []) == [] && Woken(s, []) == [] && CountedDown(s, []) == s.sleepTicks && Ids([]) == []
  {
  }

  /** What one round adds, in terms of the nodes before it. */
  lemma ScanOne(s: State, xs: seq<Node>, i: nat)
    requires i < |xs|
    ensures var t, ids := xs[i].task, Ids(xs[..i]);
            && Ids(xs[..i + 1]) == ids + [t]
            && Woken(s, ids + [t]) == Woken(s, ids) + (if SleepTicks(s, t) == 1 then [t] else [])
            && Staying(s, ids + [t]) == Staying(s, ids) + (if SleepTicks(s, t) == 1 then [] else [t])
            && CountedDown(s, ids + [t]) == CountedDown(s, ids)[t := SleepTicks(s, t) - 1]
  {
    hide Woken, Staying, SleepTicks, CountedDown;
    var t, ids := xs[i].task, Ids(xs[..i]);
    assert xs[..i + 1] == xs[..i] + [xs[i]];
    IdsAppend(xs[..i], [xs[i]]);
    assert Ids([xs[i]]) == [t];
    ScanAppend(s, ids, t);
    CountDownStep(s, ids, t);
  }

  /** The sleep list in the middle of the scan: those that stay, then those not yet seen. */
  ghost predicate Unscanned(xs: seq<Node>, i: nat, kept: seq<Node>, sleep: seq<Node>) {
    i <= |xs| && sleep == kept + xs[i..]
  }

  ghost predicate Appended(ready0: seq<Node>, woken: seq<Node>, ready: seq<Node>) {
    ready == ready0 + woken
  }

  /** The first i sleepers of xs are counted down and divided into those that stay and those woken. */
  ghost predicate Divided(s: State, xs: seq<Node>, i: nat, kept: seq<Node>, woken: seq<Node>, ticks: map<Task, int>) {
    && i <= |xs| && ticks == CountedDown(s, Ids(xs[..i]))
    && Ids(kept) == Staying(s, Ids(xs[..i])) && Ids(woken) == Woken(s, Ids(xs[..i]))
  }

  lemma UnscannedStep(xs: seq<Node>, i: nat, kept: seq<Node>, sleep: seq<Node>)
    requires i < |xs| && Unscanned(xs, i, kept, sleep) && Distinct(sleep)
    ensures |kept| < |sleep| && sleep[|kept|] == xs[i] && xs[i] in sleep
    ensures NextOf(sleep, |kept|) == if i + 1 < |xs| then xs[i + 1] else null
    ensures Unscanned(xs, i + 1, kept, RemoveNode(sleep, xs[i])) && Unscanned(xs, i + 1, kept + [xs[i]], sleep)
  {
    hide RemoveNode;
    assert sleep[|kept|] == xs[i];
    RemoveAt(sleep, |kept|);
    assert sleep[..|kept|] == kept && sleep[|kept| + 1..] == xs[i + 1..];
  }

  lemma AppendedStep(ready0: seq<Node>, woken: seq<Node>, ready: seq<Node>, n: Node)
    requires Appended(ready0, woken, ready)
    ensures Appended(ready0, woken + [n], ready + [n])
  {
  }

  lemma DividedStep(s: State, xs: seq<Node>, i: nat, kept: seq<Node>, woken: seq<Node>, ticks: map<Task, int>)
    requires i < |xs| && Divided(s, xs, i, kept, woken, ticks)
    ensures var n := SleepTicks(s, xs[i].task);
            && (n == 1 ==> Divided(s, xs, i + 1, kept, woken + [xs[i]], ticks[xs[i].task := n - 1]))
            && (n != 1 ==> Divided(s, xs, i + 1, kept + [xs[i]], woken, ticks[xs[i].task := n - 1]))
  {
    hide Woken, Staying, SleepTicks, CountedDown, Ids;
    ScanOne(s, xs, i);
    IdsSnoc(kept, xs[i]);
    IdsSnoc(woken, xs[i]);
  }

  lemma IdsTail(xs: seq<Node>)
    requires |xs| > 0
    ensures Ids(xs[1..]) == Ids(xs)[1..] && Ids(xs)[0] == xs[0].task
  {
  }

  lemma IdsSnoc(xs: seq<Node>, n: Node)
    ensures Ids(xs + [n]) == Ids(xs) + [n.task]
  {
  }

  class Scheduler {
    /** Task 0 is the idle task; list_node_parent is indexing by the node's task number. */
    const table: seq<TaskObj>
    const ready: List
    const sleep: List
    var curr: nat

    ghost predicate TableOk()
    {
      && |table| > 0 && ready != sleep
      && (forall i :: 0 <= i < |table| ==> table[i].id == i && table[i].runNode.task == i && table[i].waitNode.task == i && table[i].runNode != table[i].waitNode)
    }

    /** A list of run nodes, never the idle task's. */
    ghost predicate RunNodes(xs: seq<Node>) {
      forall n :: n in xs ==> 0 < n.task < |table| && n == table[n.task].runNode
    }

    ghost predicate Valid()
      reads this, ready, ready.nodes, sleep, sleep.nodes
    {
      && TableOk() && curr < |table| && ready.Valid() && sleep.Valid()
      && RunNodes(ready.nodes) && RunNodes(sleep.nodes)
      && (forall n :: n in ready.nodes ==> n !in sleep.nodes)
    }

    /** The part of the scheduler's state kept here. */
    ghost function View(): State
      reads this, ready, sleep, table
    {
      State(curr, Ids(ready.nodes), Ids(sleep.nodes), Slices(), Ticks(), [], [], Started(), Exited())
    }

    /** The tasks task_start was called for. */
    ghost function Started(): set<Task>
      reads table
    {
      set i: nat | i < |table| && table[i].phase != Created
    }

    /** The zombies. */
    ghost function Exited(): set<Task>
      reads table
    {
      set i: nat | i < |table| && table[i].phase == Zombie
    }

    ghost function Slices(): (r: map<Task, int>)
      reads table
      ensures forall i: nat :: i < |table| ==> i in r && r[i] == table[i].sliceTicks
    {
      map i: nat | i < |table| :: table[i].sliceTicks
    }

    ghost function Ticks(): (r: map<Task, int>)
      reads table
      ensures forall i: nat :: i < |table| ==> i in r && r[i] == table[i].sleepTicks
    {
      map i: nat | i < |table| :: table[i].sleepTicks
    }

    /** The lists of task_manager_init; `first` is the task that is running. */
    constructor (table: seq<TaskObj>, first: nat)
      requires first < |table|
      requires forall i :: 0 <= i < |table| ==> table[i].id == i && table[i].runNode.task == i && table[i].waitNode.task == i && table[i].runNode != table[i].waitNode
      ensures Valid() && this.table == table && ready.nodes == [] && sleep.nodes == [] && curr == first
      ensures fresh(ready) && fresh(sleep)
    {
      this.table := table;
      ready := new List();
      sleep := new List();
      curr := first;
    }

    /** task_set_ready. */
    method MakeReady(t: nat)
      requires Valid() && t < |table|
      requires t != IDLE ==> table[t].runNode !in ready.nodes && table[t].runNode !in sleep.nodes
      modifies ready, ready.nodes, table[t].runNode
      ensures Valid() && View() == SetReady(old(View()), t)
      ensures ready.nodes == if t == IDLE then old(ready.nodes) else old(ready.nodes) + [table[t].runNode]
    {
      hide List.Valid, Slices, Ticks, Started, Exited;
      if t != IDLE {
        ready.InsertLast(table[t].runNode);
        Untouched(sleep);
        IdsAppend(old(ready.nodes), [table[t].runNode]);
      }
    }

    /** task_set_block, which relies on the task being on the ready list. */
    method Block(t: nat)
      requires Valid() && t < |table| && (t != IDLE ==> table[t].runNode in ready.nodes)
      modifies ready, ready.nodes
      ensures Valid() && View() == SetBlock(old(View()), t)
      ensures t != IDLE ==> table[t].runNode !in ready.nodes
      ensures forall i :: 0 <= i < |ready.nodes| ==> ready.nodes[i] in old(ready.nodes)
    {
      hide List.Valid, RemoveNode, Without, Ids, Slices, Ticks, Started, Exited;
      if t != IDLE {
        IdsRemove(ready.nodes, table[t].runNode);
        ready.Delete(table[t].runNode);
        Untouched(sleep);
      }
    }

    /** task_next_run. */
    function NextToRun(): (t: nat)
      requires Valid()
      reads this, ready, ready.nodes, sleep, sleep.nodes, table
      ensures t == NextRun(View()) && t < |table|
    {
      if ready.count == 0 then IDLE else
        assert ready.nodes[0] in ready.nodes;
        ready.first.task
    }

    /** task_dispatch: a switch is a change of the current task. */
    method Switch()
      requires Valid()
      modifies this
      ensures Valid() && View() == Dispatch(old(View()))
    {
      hide List.Valid, Ids, Slices, Ticks, Started, Exited;
      var to := NextToRun();
      if to != curr {
        curr := to;
      }
    }

    /** The running task's run node is on the ready list, as the scheduler's invariant has it. */
    ghost predicate Running()
      reads this, ready
    {
      curr != IDLE && curr < |table| ==> table[curr].runNode in ready.nodes
    }

    /** task_set_block and task_set_ready of the running task, one after the other. */
    method Rotate()
      requires Valid() && Running()
      modifies ready, ready.nodes, table[curr].runNode
      ensures Valid() && View() == SetReady(SetBlock(old(View()), curr), curr)
    {
      hide List.Valid, Ids, Slices, Ticks, Started, Exited, Without;
      Block(curr);
      MakeReady(curr);
    }

    /** sys_yield. */
    method YieldCpu()
      requires Valid() && Running()
      modifies this, ready, ready.nodes, table[curr].runNode
      ensures Valid() && View() == Yield(old(View()))
    {
      hide Ids, Slices, Ticks, Started, Exited, Without;
      if ready.count > 1 {
        Rotate();
        Switch();
      }
    }

    method SetSlice(t: nat, n: int)
      requires t < |table| && TableOk()
      modifies table[t]
      ensures Slices() == old(Slices())[t := n] && Ticks() == old(Ticks()) && Started() == old(Started()) && Exited() == old(Exited())
    {
      table[t].sliceTicks := n;
      assert forall i: nat :: i < |table| && i != t ==> table[i] != table[t];
    }

    method SetSleepTicks(t: nat, n: int)
      requires t < |table| && TableOk()
      modifies table[t]
      ensures Ticks() == old(Ticks())[t := n] && Slices() == old(Slices()) && Started() == old(Started()) && Exited() == old(Exited())
      ensures table[t].sleepTicks == n && forall i: nat :: i < |table| && i != t ==> table[i].sleepTicks == old(table[i].sleepTicks)
    {
      table[t].sleepTicks := n;
      assert forall i: nat :: i < |table| && i != t ==> table[i] != table[t];
    }

    /** task_time_tick up to its first dispatch. */
    method TickHead()
      requires Valid() && Running()
      modifies this, ready, ready.nodes, table[curr].runNode, table
      ensures Valid() && View() == Tick(old(View()))
    {
      hide List.Valid, Ids, Without, Slices, Ticks, Started, Exited, RunNodes, SetBlock, SetReady;
      var slice := table[curr].sliceTicks - 1;
      assert slice == Slice(View(), curr) - 1;
      SetSlice(curr, slice);
      if slice == 0 {
        SetSlice(curr, SLICE);
        assert View() == old(View()).(slice := old(View()).slice[curr := SLICE]);
        Rotate();
        Switch();
      }
    }

    /** sys_sleep. */
    method SleepFor(ms: nat)
      requires Valid() && Running() && curr != IDLE
      modifies this, ready, ready.nodes, sleep, sleep.nodes, table[curr].runNode, table
      ensures Valid() && View() == Sleep(old(View()), ms)
    {
      hide List.Valid, Ids, Without, Slices, Ticks, Started, Exited;
      Block(curr);
      if ms / TICK_MS > 0 {
        SetSleepTicks(curr, ms / TICK_MS);
        PutToSleep(table[curr].runNode);
      }
      Switch();
    }

    /** The insertion of task_set_sleep. */
    method PutToSleep(node: Node)
      requires Valid() && node !in ready.nodes && node !in sleep.nodes && 0 < node.task < |table| && node == table[node.task].runNode
      modifies sleep, sleep.nodes, node
      ensures Valid() && View() == old(View()).(sleep := old(View()).sleep + [node.task])
      ensures ready.nodes == old(ready.nodes)
    {
      hide List.Valid, Slices, Ticks, Started, Exited;
      sleep.InsertLast(node);
      Untouched(ready);
      IdsAppend(old(sleep.nodes), [node]);
    }

    method SetPhase(t: nat, p: Phase)
      requires t < |table| && TableOk() && p != Created
      modifies table[t]
      ensures Slices() == old(Slices()) && Ticks() == old(Ticks())
      ensures Started() == old(Started()) + {t} && Exited() == if p == Zombie then old(Exited()) + {t} else old(Exited()) - {t}
    {
      table[t].phase := p;
      assert forall i: nat :: i < |table| && i != t ==> table[i] != table[t];
    }

    /** task_start: the task becomes ready, and there is no dispatch. */
    method Begin(t: nat)
      requires Valid() && t < |table| && t != IDLE && table[t].phase == Created && table[t].runNode !in ready.nodes && table[t].runNode !in sleep.nodes
      modifies ready, ready.nodes, table[t].runNode, table[t]
      ensures Valid() && View() == Start(old(View()), t)
    {
      hide List.Valid, Ids, Slices, Ticks;
      assert t !in Exited();
      hide Started, Exited;
      SetPhase(t, Live);
      MakeReady(t);
    }

    /** The protected part of sys_exit. */
    method ExitCurrent()
      requires Valid() && Running() && curr != IDLE && table[curr].phase == Live
      modifies this, ready, ready.nodes, table[curr]
      ensures Valid() && View() == Exit(old(View()))
    {
      hide List.Valid, Ids, Without, Slices, Ticks;
      assert curr in Started() && TableOk() && curr < |table| && table[curr].runNode in ready.nodes;
      hide Started, Exited, Valid, TableOk, SetBlock, Dispatch;
      SetPhase(curr, Zombie);
      assert Started() == old(Started()) && View() == old(View()).(exited := old(Exited()) + {curr});
      hide View;
      Block(curr);
      Switch();
    }

    /** task_set_wakeup and task_set_ready of a sleeper. */
    method Wake(node: Node)
      requires Valid() && node in sleep.nodes
      modifies ready, ready.nodes, sleep, sleep.nodes
      ensures Valid() && sleep.nodes == RemoveNode(old(sleep.nodes), node) && ready.nodes == old(ready.nodes) + [node]
      ensures forall k :: 0 <= k < |sleep.nodes| ==> sleep.nodes[k] in old(sleep.nodes)
    {
      hide List.Valid, Ids, Slices, Ticks, Started, Exited, RemoveNode;
      sleep.Delete(node);
      Untouched(ready);
      assert Valid() by {
        assert forall n :: n in sleep.nodes ==> n in old(sleep.nodes);
      }
      MakeReady(node.task);
    }

    /** One round of the scan: the sleeper is counted down and, when due, moved to the ready list. */
    method WakeIfDue(node: Node)
      requires Valid() && node in sleep.nodes
      modifies ready, ready.nodes, sleep, sleep.nodes, table
      ensures Valid() && curr == old(curr) && Slices() == old(Slices()) && Started() == old(Started()) && Exited() == old(Exited())
      ensures var n := old(Ticks())[node.task] - 1;
              && Ticks() == old(Ticks())[node.task := n]
              && sleep.nodes == (if n == 0 then RemoveNode(old(sleep.nodes), node) else old(sleep.nodes))
              && ready.nodes == if n == 0 then old(ready.nodes) + [node] else old(ready.nodes)
      ensures forall k :: 0 <= k < |sleep.nodes| ==> sleep.nodes[k] in old(sleep.nodes)
    {
      hide List.Valid, Ids, Slices, Ticks, Started, Exited, RemoveNode;
      var t := node.task;
      SetSleepTicks(t, table[t].sleepTicks - 1);
      if table[t].sleepTicks == 0 {
        Wake(node);
      }
    }

    /** The scan has dealt with the first i sleepers of xs: `kept` stay, `woken` are ready. */
    ghost predicate ScannedTo(s0: State, xs: seq<Node>, ready0: seq<Node>, i: nat, kept: seq<Node>, woken: seq<Node>)
      reads this, ready, sleep, table
    {
      && curr == s0.curr && Slices() == s0.slice && Started() == s0.started && Exited() == s0.exited && Divided(s0, xs, i, kept, woken, Ticks())
      && Unscanned(xs, i, kept, sleep.nodes) && Appended(ready0, woken, ready.nodes)
    }

    /** The sleepers belong to different tasks. */
    ghost predicate Sleepers(s0: State, xs: seq<Node>)
    {
      (forall j, k :: 0 <= j < k < |xs| ==> xs[j].task != xs[k].task) && forall k :: 0 <= k < |xs| ==> xs[k].task in s0.sleepTicks
    }

    /** The loop body, with the successor fetched before the node is unlinked. */
    method ScanRound(node: Node, ghost s0: State, ghost xs: seq<Node>, ghost ready0: seq<Node>, ghost i: nat, ghost kept: seq<Node>, ghost woken: seq<Node>)
      returns (next: Node?, ghost kept': seq<Node>, ghost woken': seq<Node>)
      requires Valid() && i < |xs| && node == xs[i] && ScannedTo(s0, xs, ready0, i, kept, woken) && Sleepers(s0, xs)
      modifies ready, ready.nodes, sleep, sleep.nodes, table
      ensures Valid() && ScannedTo(s0, xs, ready0, i + 1, kept', woken')
      ensures next == if i + 1 < |xs| then xs[i + 1] else null
      ensures forall k :: 0 <= k < |sleep.nodes| ==> sleep.nodes[k] in old(sleep.nodes)
      ensures forall k :: 0 <= k < |ready.nodes| ==> ready.nodes[k] in old(ready.nodes) || ready.nodes[k] == node
    {
      hide List.Valid, Valid, Sleepers, Slices, Ticks, Started, Exited, RemoveNode, SleepTicks, Divided, Unscanned, Appended, NextOf, Distinct;
      RoundFacts(s0, xs, ready0, i, kept, woken);
      UnscannedStep(xs, i, kept, sleep.nodes);
      DividedStep(s0, xs, i, kept, woken, Ticks());
      AppendedStep(ready0, woken, ready.nodes, node);
      next := sleep.Next(node, |kept|);
      WakeIfDue(node);
      kept', woken' := kept, woken;
      if SleepTicks(s0, node.task) == 1 {
        woken' := woken + [node];
      } else {
        kept' := kept + [node];
      }
    }

    lemma RoundFacts(s0: State, xs: seq<Node>, ready0: seq<Node>, i: nat, kept: seq<Node>, woken: seq<Node>)
      requires Valid() && i < |xs| && ScannedTo(s0, xs, ready0, i, kept, woken) && Sleepers(s0, xs)
      ensures sleep.Valid() && Distinct(sleep.nodes)
      ensures xs[i].task in Ticks() && Ticks()[xs[i].task] == SleepTicks(s0, xs[i].task)
    {
    }

    /** The loop of task_time_tick: it unlinks sleepers while it walks the list. */
    method ScanLoop(ghost s0: State, ghost linked: set<Node>) returns (ghost kept: seq<Node>, ghost woken: seq<Node>)
      requires Valid() && s0 == View() && AllIn(ready.nodes, linked) && AllIn(sleep.nodes, linked)
      modifies ready, sleep, linked, table
      ensures Valid() && ScannedTo(s0, old(sleep.nodes), old(ready.nodes), |old(sleep.nodes)|, kept, woken)
    {
      hide List.Valid, Slices, Ticks, Started, Exited, RemoveNode, Woken, Staying, SleepTicks, CountedDown, Ids, RunNodes, TableOk;
      ghost var xs, ready0, i := sleep.nodes, ready.nodes, 0;
      kept, woken := [], [];
      ScanStart(s0);
      SleepersDistinct();
      var node := sleep.First();
      assert ScannedTo(s0, xs, ready0, 0, kept, woken);
      hide ScannedTo;
      while node != null
        invariant 0 <= i <= |xs| && Valid() && ScannedTo(s0, xs, ready0, i, kept, woken)
        invariant node == if i < |xs| then xs[i] else null
        invariant AllIn(ready.nodes, linked) && AllIn(sleep.nodes, linked) && AllIn(xs, linked)
        decreases |xs| - i
      {
        node, kept, woken := ScanRound(node, s0, xs, ready0, i, kept, woken);
        i := i + 1;
      }
    }

    /** The rest of task_time_tick, after its first dispatch. */
    method ScanSleepers()
      requires Valid()
      modifies this, ready, ready.nodes, sleep, sleep.nodes, table
      ensures Valid() && View() == Scan(old(View()))
    {
      hide List.Valid, Slices, Ticks, Started, Exited, Woken, Staying, CountedDown, Ids, RunNodes, TableOk, ScannedTo;
      ghost var s0, xs, ready0 := View(), sleep.nodes, ready.nodes;
      ghost var kept, woken := ScanLoop(s0, (set n | n in xs) + (set n | n in ready0));
      ScanDone(s0, xs, ready0, kept, woken);
      Switch();
    }

    lemma ScanDone(s0: State, xs: seq<Node>, ready0: seq<Node>, kept: seq<Node>, woken: seq<Node>)
      requires ScannedTo(s0, xs, ready0, |xs|, kept, woken) && s0.sleep == Ids(xs) && s0.ready == Ids(ready0)
      requires s0.mutexes == [] && s0.sems == []
      ensures Dispatch(View()) == Scan(s0)
    {
      assert xs[..|xs|] == xs && kept + xs[|xs|..] == kept;
      IdsAppend(ready0, woken);
    }

    /** Different nodes of a list belong to different tasks. */
    lemma SleepersDistinct()
      requires Valid()
      ensures Sleepers(View(), sleep.nodes)
    {
    }
  }
}
