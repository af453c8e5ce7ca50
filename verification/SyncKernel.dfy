/**
 * mutex.c and sem.c as they run: wait lists are linked lists over the tasks' wait
 * nodes, changed together with the scheduler's lists. Each method is proved to do
 * what LockStep, UnlockStep, WaitStep and NotifyStep of module Sched do to the
 * object and to the scheduler.
 */
module SyncKernel {
  import opened Options
  import opened Sync
  import opened Sched
  import opened Lists
  import opened TaskKernel

  /** A wait list: wait nodes of tasks that are on neither run list. */
  ghost predicate WaitListOk(s: Scheduler, list: List)
    reads s, s.ready, s.sleep, list, list.nodes
  {
    && list.Valid() && list != s.ready && list != s.sleep
    && forall n :: n in list.nodes ==>
         && 0 < n.task < |s.table| && n == s.table[n.task].waitNode
         && s.table[n.task].runNode !in s.ready.nodes && s.table[n.task].runNode !in s.sleep.nodes
  }

  /** Wait nodes are not run nodes, so the scheduler's lists share no node with a wait list. */
  lemma WaitNodesApart(s: Scheduler, list: List)
    requires s.Valid() && WaitListOk(s, list)
    ensures forall n :: n in list.nodes ==> n !in s.ready.nodes && n !in s.sleep.nodes
  {
  }

  /** The blocking half of mutex_lock and sem_wait: the caller leaves the ready list and queues up. */
  method BlockOn(s: Scheduler, list: List)
    requires s.Valid() && s.Running() && s.curr != IDLE && WaitListOk(s, list) && s.table[s.curr].waitNode !in list.nodes
    modifies s, s.ready, s.ready.nodes, list, list.nodes, s.table[s.curr].waitNode
    ensures s.Valid() && WaitListOk(s, list) && s.View() == Dispatch(SetBlock(old(s.View()), old(s.curr)))
    ensures list.nodes == old(list.nodes) + [s.table[old(s.curr)].waitNode]
  {
    hide List.Valid, WaitListOk, Scheduler.Valid, Scheduler.View, Ids, Dispatch, SetBlock;
    var t := s.curr;
    BlockFacts(s, list);
    s.Block(t);
    assert forall m :: m in s.ready.nodes ==> m in old(s.ready.nodes);
    Untouched(list);
    Enqueue(s, list, s.table[t].waitNode);
    s.Switch();
    NowWaiting(s, list, t);
  }

  lemma BlockFacts(s: Scheduler, list: List)
    requires s.Valid() && s.Running() && s.curr != IDLE && WaitListOk(s, list)
    ensures 0 < s.curr < |s.table| && s.table[s.curr].waitNode.task == s.curr && s.table[s.curr].runNode in s.ready.nodes && list.Valid() && list != s.ready && list != s.sleep && s.ready != s.sleep
    ensures s.table[s.curr].waitNode !in s.ready.nodes && s.table[s.curr].waitNode !in s.sleep.nodes && s.table[s.curr].runNode !in s.sleep.nodes
    ensures forall n :: n in list.nodes ==>
              && n !in s.ready.nodes && n !in s.sleep.nodes && 0 < n.task < |s.table| && n == s.table[n.task].waitNode
              && s.table[n.task].runNode !in s.ready.nodes && s.table[n.task].runNode !in s.sleep.nodes
  {
    hide List.Valid;
  }

  /** The caller is on no run list any more, so the longer list is a wait list. */
  lemma NowWaiting(s: Scheduler, list: List, t: nat)
    requires s.Valid() && list.Valid() && list != s.ready && list != s.sleep
    requires forall n :: n in list.nodes ==>
               && 0 < n.task < |s.table| && n == s.table[n.task].waitNode
               && s.table[n.task].runNode !in s.ready.nodes && s.table[n.task].runNode !in s.sleep.nodes
    ensures WaitListOk(s, list)
  {
    hide List.Valid;
  }

  /** list_insert_last of a wait node leaves the scheduler's lists alone. */
  method Enqueue(s: Scheduler, list: List, node: Node)
    requires s.Valid() && list.Valid() && list != s.ready && list != s.sleep && node !in list.nodes
    requires node !in s.ready.nodes && node !in s.sleep.nodes
    requires forall n :: n in list.nodes ==> n !in s.ready.nodes && n !in s.sleep.nodes
    modifies list, list.nodes, node
    ensures s.Valid() && list.Valid() && s.View() == old(s.View()) && list.nodes == old(list.nodes) + [node]
  {
    hide List.Valid, Ids, Scheduler.Slices, Scheduler.Ticks, Scheduler.Started, Scheduler.Exited;
    list.InsertLast(node);
    Untouched(s.ready);
    Untouched(s.sleep);
  }

  /** The waking half of mutex_unlock and sem_notify: the first waiter becomes ready, then dispatch. */
  method WakeFirst(s: Scheduler, list: List) returns (t: nat)
    requires s.Valid() && WaitListOk(s, list) && |list.nodes| > 0
    modifies s, s.ready, s.ready.nodes, list, list.nodes, s.table[list.nodes[0].task].runNode
    ensures s.Valid() && WaitListOk(s, list) && t == old(list.nodes[0]).task && list.nodes == old(list.nodes)[1..]
    ensures s.View() == Dispatch(SetReady(old(s.View()), t))
  {
    hide List.Valid, WaitListOk, Scheduler.Valid, Scheduler.View, Ids, Dispatch, SetReady;
    t := Dequeue(s, list);
    label dequeued:
    ghost var ready0 := s.ready.nodes;
    s.MakeReady(t);
    Untouched@dequeued(list);
    s.Switch();
    StillWaiting(s, list, t, ready0);
  }

  /** The waiters that remain are on no run list: they are tasks other than the one woken. */
  lemma StillWaiting(s: Scheduler, list: List, t: nat, ready0: seq<Node>)
    requires s.Valid() && list.Valid() && list != s.ready && list != s.sleep && 0 < t < |s.table|
    requires s.ready.nodes == ready0 + [s.table[t].runNode]
    requires forall n :: n in list.nodes ==>
               && 0 < n.task < |s.table| && n.task != t && n == s.table[n.task].waitNode
               && s.table[n.task].runNode !in ready0 && s.table[n.task].runNode !in s.sleep.nodes
    ensures WaitListOk(s, list)
  {
    hide List.Valid, Scheduler.RunNodes;
  }

  method Dequeue(s: Scheduler, list: List) returns (t: nat)
    requires s.Valid() && WaitListOk(s, list) && |list.nodes| > 0
    modifies list, list.nodes
    ensures s.Valid() && list.Valid() && list != s.ready && list != s.sleep && s.ready != s.sleep && s.View() == old(s.View())
    ensures t == old(list.nodes[0]).task && list.nodes == old(list.nodes)[1..]
    ensures 0 < t < |s.table| && s.table[t].runNode !in s.ready.nodes && s.table[t].runNode !in s.sleep.nodes
    ensures forall n :: n in list.nodes ==> n !in s.ready.nodes && n != s.table[t].runNode
    ensures forall n :: n in list.nodes ==>
              && 0 < n.task < |s.table| && n.task != t && n == s.table[n.task].waitNode
              && s.table[n.task].runNode !in s.ready.nodes && s.table[n.task].runNode !in s.sleep.nodes
  {
    hide List.Valid, Ids, Scheduler.Slices, Scheduler.Ticks, Scheduler.Started, Scheduler.Exited;
    WaitNodesApart(s, list);
    assert list.nodes[0] in list.nodes;
    ListDistinct(list);
    var node := list.DeleteFirst();
    Untouched(s.ready);
    Untouched(s.sleep);
    t := node.task;
  }

  class MutexObj {
    var owner: Option<nat>
    var count: nat
    const waitList: List

    ghost function View(): Mutex
      reads this, waitList
    {
      Mutex(owner, count, Ids(waitList.nodes))
    }

    /** mutex_init. */
    constructor ()
      ensures View() == FREE_MUTEX && waitList.Valid() && fresh(waitList)
    {
      owner, count := None, 0;
      waitList := new List();
    }

    /** mutex_lock. */
    method Acquire(s: Scheduler)
      requires s.Valid() && s.Running() && s.curr != IDLE && WaitListOk(s, waitList) && s.table[s.curr].waitNode !in waitList.nodes
      modifies this, s, s.ready, s.ready.nodes, waitList, waitList.nodes, s.table[s.curr].waitNode
      ensures s.Valid() && WaitListOk(s, waitList) && View() == LockMutex(old(View()), old(s.curr))
      ensures s.View() == if old(count) == 0 || old(owner) == Some(old(s.curr)) then old(s.View()) else Dispatch(SetBlock(old(s.View()), old(s.curr)))
    {
      hide List.Valid, Without, Scheduler.Slices, Scheduler.Ticks, Scheduler.Started, Scheduler.Exited;
      if count == 0 {
        count, owner := 1, Some(s.curr);
      } else if owner == Some(s.curr) {
        count := count + 1;
      } else {
        ghost var node := s.table[s.curr].waitNode;
        IdsSnoc(waitList.nodes, node);
        BlockOn(s, waitList);
      }
    }

    /** mutex_unlock. */
    method Release(s: Scheduler)
      requires s.Valid() && WaitListOk(s, waitList) && (owner == Some(s.curr) ==> count > 0)
      modifies this, s, s.ready, s.ready.nodes, waitList, waitList.nodes
      modifies set n | n in waitList.nodes && n.task < |s.table| :: s.table[n.task].runNode
      ensures s.Valid() && WaitListOk(s, waitList) && View() == UnlockMutex(old(View()), old(s.curr))
      ensures s.View() == if old(owner) == Some(old(s.curr)) && old(count) == 1 && |old(waitList.nodes)| > 0
                          then Dispatch(SetReady(old(s.View()), old(waitList.nodes[0]).task)) else old(s.View())
    {
      hide List.Valid, Scheduler.Slices, Scheduler.Ticks, Scheduler.Started, Scheduler.Exited, Ids, Scheduler.RunNodes, Scheduler.TableOk;
      if owner == Some(s.curr) {
        count := count - 1;
        if count == 0 {
          owner := None;
          if !IsEmpty(waitList) {
            assert waitList.nodes[0] in waitList.nodes;
            IdsTail(waitList.nodes);
            var t := WakeFirst(s, waitList);
            count, owner := 1, Some(t);
          }
        }
      }
    }
  }

  function IsEmpty(list: List): (b: bool)
    requires list.Valid()
    reads list, list.nodes
    ensures b <==> |list.nodes| == 0
  {
    list.count == 0
  }

  class SemObj {
    var count: int
    const waitList: List

    ghost function View(): Sem
      reads this, waitList
    {
      Sem(count, Ids(waitList.nodes))
    }

    /** sem_init. */
    constructor (init: int)
      ensures View() == Sem(init, []) && waitList.Valid() && fresh(waitList)
    {
      count := init;
      waitList := new List();
    }

    /** sem_wait. */
    method Down(s: Scheduler)
      requires s.Valid() && s.Running() && s.curr != IDLE && WaitListOk(s, waitList) && s.table[s.curr].waitNode !in waitList.nodes
      modifies this, s, s.ready, s.ready.nodes, waitList, waitList.nodes, s.table[s.curr].waitNode
      ensures s.Valid() && WaitListOk(s, waitList) && View() == CallSem(old(View()), Wait(old(s.curr)))
      ensures s.View() == if old(count) > 0 then old(s.View()) else Dispatch(SetBlock(old(s.View()), old(s.curr)))
    {
      hide List.Valid, Without, Scheduler.Slices, Scheduler.Ticks, Scheduler.Started, Scheduler.Exited;
      if count > 0 {
        count := count - 1;
      } else {
        ghost var node := s.table[s.curr].waitNode;
        IdsSnoc(waitList.nodes, node);
        BlockOn(s, waitList);
      }
    }

    /** sem_notify. */
    method Up(s: Scheduler)
      requires s.Valid() && WaitListOk(s, waitList)
      modifies this, s, s.ready, s.ready.nodes, waitList, waitList.nodes
      modifies set n | n in waitList.nodes && n.task < |s.table| :: s.table[n.task].runNode
      ensures s.Valid() && WaitListOk(s, waitList) && View() == CallSem(old(View()), Notify)
      ensures s.View() == if |old(waitList.nodes)| > 0 then Dispatch(SetReady(old(s.View()), old(waitList.nodes[0]).task)) else old(s.View())
    {
      hide List.Valid, Scheduler.Slices, Scheduler.Ticks, Scheduler.Started, Scheduler.Exited;
      if !IsEmpty(waitList) {
        assert waitList.nodes[0] in waitList.nodes;
        var t := WakeFirst(s, waitList);
      } else {
        count := count + 1;
      }
    }
  }
}
