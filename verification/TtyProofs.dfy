/**
 * Every interleaving of writers keeps the pipeline's invariant.
 */
module TtyProofs {
  import opened Options
  import opened Sync
  import opened Tty

  // ---------------------------------------------------------------- conservation

  lemma StepShape(s: Tty, w: nat)
    requires Inv(s) && Enabled(s, w)
    ensures Shape(Next(s, w)) && |Next(s, w).pcs| == |s.pcs|
  {
    hide Conserved, SemOk, MutexHeld, InOrder;
  }

  lemma SemWaitConserved(s: Tty, w: nat, got: Pc, blocked: Pc)
    requires w < |s.pcs| && Conserved(s) && s.sem.count >= 0
    requires Permit(s.pcs[w]) == 0 && InHand(s.pcs[w]) == 0 && Permit(got) == 1 && InHand(got) == 0 && Permit(blocked) == 0 && InHand(blocked) == 0
    ensures Conserved(SemWait(s, w, got, blocked))
  {
    hide SumPcs, Permit, InHand;
    SumUpdate(s.pcs, w, got);
    SumUpdate(s.pcs, w, blocked);
  }

  lemma SemNotifyConserved(s: Tty, w: nat, next: Pc)
    requires w < |s.pcs| && Conserved(s) && SemOk(s) && s.pcs[w].Signal? && Permit(next) == 0 && InHand(next) == 0
    ensures Conserved(SemNotify(s, w, next))
  {
    hide SumPcs;
    SumUpdate(s.pcs, w, next);
    if |s.sem.waiters| > 0 {
      var t := s.sem.waiters[0];
      assert t in s.sem.waiters;
      var pcs := s.pcs[w := next];
      SumUpdate(pcs, t, Awakened(pcs[t]));
    }
  }

  lemma ConUnlockConserved(s: Tty, w: nat)
    requires w < |s.pcs| && Conserved(s) && MutexHeld(s) && s.pcs[w] == UnlockCon
    ensures Conserved(ConUnlock(s, w))
  {
    hide SumPcs;
    SumUpdate(s.pcs, w, Loop);
    if |s.mutex.waiters| > 0 {
      var t := s.mutex.waiters[0];
      assert t in s.mutex.waiters;
      SumUpdate(s.pcs[w := Loop], t, Drain);
    }
  }

  lemma StepConserved(s: Tty, w: nat)
    requires Inv(s) && Enabled(s, w)
    ensures Conserved(Next(s, w))
  {
    hide SumPcs, InOrder, MutexHeld, SemWait, SemNotify, ConUnlock;
    var t := Next(s, w);
    var pc := s.pcs[w];
    if pc == WaitCr {
      SemWaitConserved(s, w, PutCr, BlockedCr);
    } else if pc == WaitCh {
      SemWaitConserved(s, w, PutCh, BlockedCh);
    } else if pc.Signal? {
      SemNotifyConserved(s, w, Show(pc.item));
    } else if pc == UnlockCon {
      ConUnlockConserved(s, w);
    } else {
      SumUpdate(s.pcs, w, t.pcs[w]);
    }
  }

  // ---------------------------------------------------------------- semaphore

  /** Changing the pc of a task that is not queued keeps the queue. */
  lemma SemOkGoto(s: Tty, w: nat, pc: Pc)
    requires w < |s.pcs| && SemOk(s) && !BlockedOnSem(s.pcs[w]) && !BlockedOnSem(pc)
    ensures SemOk(Goto(s, w, pc))
  {
  }

  lemma SemWaitOk(s: Tty, w: nat, got: Pc, blocked: Pc)
    requires w < |s.pcs| && SemOk(s) && !BlockedOnSem(s.pcs[w]) && !BlockedOnSem(got) && BlockedOnSem(blocked)
    ensures SemOk(SemWait(s, w, got, blocked))
  {
    assert forall t: nat :: t in s.sem.waiters + [w] <==> t in s.sem.waiters || t == w;
  }

  lemma SemNotifyOk(s: Tty, w: nat, next: Pc)
    requires w < |s.pcs| && SemOk(s) && !BlockedOnSem(s.pcs[w]) && !BlockedOnSem(next)
    ensures SemOk(SemNotify(s, w, next))
  {
    var ws := s.sem.waiters;
    if |ws| > 0 {
      assert ws[0] in ws && forall t :: t in ws[1..] <==> t in ws && t != ws[0];
    }
  }

  lemma ConUnlockSemOk(s: Tty, w: nat)
    requires w < |s.pcs| && SemOk(s) && MutexHeld(s) && s.pcs[w] == UnlockCon
    ensures SemOk(ConUnlock(s, w))
  {
    SemOkGoto(s, w, Loop);
    if |s.mutex.waiters| > 0 {
      assert s.mutex.waiters[0] in s.mutex.waiters;
    }
  }

  lemma StepSemOk(s: Tty, w: nat)
    requires Inv(s) && Enabled(s, w)
    ensures SemOk(Next(s, w))
  {
    hide SumPcs, InOrder, MutexHeld, SemWait, SemNotify, ConUnlock, NoDup, Conserved, Pending;
    var pc := s.pcs[w];
    if pc == WaitCr {
      SemWaitOk(s, w, PutCr, BlockedCr);
    } else if pc == WaitCh {
      SemWaitOk(s, w, PutCh, BlockedCh);
    } else if pc.Signal? {
      SemNotifyOk(s, w, Show(pc.item));
    } else if pc == UnlockCon {
      ConUnlockSemOk(s, w);
    } else {
      SemOkGoto(s, w, Next(s, w).pcs[w]);
    }
  }

  // ---------------------------------------------------------------- mutex

  /** A task that neither holds nor waits for the console moves among such places. */
  lemma MutexGoto(s: Tty, w: nat, pc: Pc)
    requires w < |s.pcs| && MutexHeld(s) && s.pcs[w] != BlockedCon && pc != BlockedCon && HoldsConsole(pc) == HoldsConsole(s.pcs[w])
    ensures MutexHeld(Goto(s, w, pc))
  {
  }

  lemma ConLockHeld(s: Tty, w: nat)
    requires w < |s.pcs| && MutexHeld(s) && s.pcs[w] == LockCon
    ensures MutexHeld(ConLock(s, w))
  {
    assert w !in s.mutex.waiters && s.mutex.owner != Some(w);
    MutexOkStep(s.mutex, Lock(w));
  }

  lemma ConUnlockHeld(s: Tty, w: nat)
    requires w < |s.pcs| && MutexHeld(s) && s.pcs[w] == UnlockCon
    ensures MutexHeld(ConUnlock(s, w))
  {
    assert w !in s.mutex.waiters && s.mutex.owner == Some(w);
    MutexOkStep(s.mutex, Unlock(w));
    var ws := s.mutex.waiters;
    if |ws| > 0 {
      assert ws[0] in ws;
      assert forall j :: 0 <= j < |ws| ==> Line(s.mutex)[j + 1] == ws[j];
      assert forall t :: t in ws[1..] <==> t in ws && t != ws[0];
    }
  }

  lemma SemNotifyHeld(s: Tty, w: nat, next: Pc)
    requires w < |s.pcs| && MutexHeld(s) && SemOk(s) && s.pcs[w].Signal? && next.Show?
    ensures MutexHeld(SemNotify(s, w, next))
  {
    hide MutexOk, NoDup;
    MutexGoto(s, w, next);
    if |s.sem.waiters| > 0 {
      var t := s.sem.waiters[0];
      assert t in s.sem.waiters;
      MutexGoto(Goto(s, w, next), t, Awakened(s.pcs[t]));
    }
  }

  lemma StepMutexHeld(s: Tty, w: nat)
    requires Inv(s) && Enabled(s, w)
    ensures MutexHeld(Next(s, w))
  {
    hide SumPcs, InOrder, SemNotify, ConUnlock, NoDup, Conserved, MutexHeld, Pending, ConLock, SemOk, Between, CallSem;
    var pc := s.pcs[w];
    if pc == LockCon {
      ConLockHeld(s, w);
    } else if pc == UnlockCon {
      ConUnlockHeld(s, w);
    } else if pc.Signal? {
      SemNotifyHeld(s, w, Show(pc.item));
    } else {
      var t := Next(s, w);
      MutexGoto(s, w, t.pcs[w]);
      MutexHeldDepends(Goto(s, w, t.pcs[w]), t);
    }
  }

  lemma MutexHeldDepends(s: Tty, t: Tty)
    requires s.mutex == t.mutex && s.pcs == t.pcs && MutexHeld(s)
    ensures MutexHeld(t)
  {
  }

  // ---------------------------------------------------------------- order

  /** The console's owner carries what its pc says, and a task that is not the owner does not matter. */
  lemma CarriedGoto(s: Tty, w: nat, pc: Pc)
    requires w < |s.pcs| && MutexHeld(s) && (HoldsConsole(s.pcs[w]) || Between(pc) == [])
    ensures Carried(Goto(s, w, pc)) == if HoldsConsole(s.pcs[w]) then Between(pc) else Carried(s)
  {
  }

  lemma ConLockCarried(s: Tty, w: nat)
    requires w < |s.pcs| && MutexHeld(s) && s.pcs[w] == LockCon
    ensures Carried(ConLock(s, w)) == Carried(s)
  {
  }

  lemma ConUnlockCarried(s: Tty, w: nat)
    requires w < |s.pcs| && MutexHeld(s) && s.pcs[w] == UnlockCon
    ensures Carried(s) == [] && Carried(ConUnlock(s, w)) == []
  {
  }

  lemma SemNotifyCarried(s: Tty, w: nat, item: Item)
    requires w < |s.pcs| && MutexHeld(s) && SemOk(s) && s.pcs[w] == Signal(item)
    ensures Carried(SemNotify(s, w, Show(item))) == Carried(s)
  {
  }

  lemma StepInOrder(s: Tty, w: nat)
    requires Inv(s) && Enabled(s, w)
    ensures InOrder(Next(s, w))
  {
    hide SumPcs, NoDup, Conserved, MutexHeld, Pending, SemOk, Carried, SemWait, SemNotify, ConLock, ConUnlock, Next;
    NextPlain(s, w);
    var pc := s.pcs[w];
    if pc == LockCon {
      ConLockCarried(s, w);
      ConKeeps(s, w);
    } else if pc == UnlockCon {
      ConUnlockCarried(s, w);
      ConKeeps(s, w);
    } else if pc.Signal? {
      SemNotifyCarried(s, w, pc.item);
      SemKeeps(s, w, Show(pc.item), Show(pc.item));
    } else if pc == WaitCr || pc == WaitCh {
      WaitCarried(s, w, PutCr, BlockedCr);
      WaitCarried(s, w, PutCh, BlockedCh);
      SemKeeps(s, w, PutCr, BlockedCr);
      SemKeeps(s, w, PutCh, BlockedCh);
    } else {
      PlainInOrder(s, w);
    }
  }

  lemma WaitCarried(s: Tty, w: nat, got: Pc, blocked: Pc)
    requires w < |s.pcs| && MutexHeld(s) && !HoldsConsole(s.pcs[w]) && Between(got) == [] && Between(blocked) == []
    ensures Carried(SemWait(s, w, got, blocked)) == Carried(s)
  {
  }

  lemma SemKeeps(s: Tty, w: nat, a: Pc, b: Pc)
    requires w < |s.pcs|
    ensures var t := SemWait(s, w, a, b); t.puts == s.puts && t.pops == s.pops && t.fifo == s.fifo && t.shown == s.shown
    ensures var t := SemNotify(s, w, a); t.puts == s.puts && t.pops == s.pops && t.fifo == s.fifo && t.shown == s.shown
  {
  }

  lemma ConKeeps(s: Tty, w: nat)
    requires w < |s.pcs|
    ensures var t := ConLock(s, w); t.puts == s.puts && t.pops == s.pops && t.fifo == s.fifo && t.shown == s.shown
    ensures var t := ConUnlock(s, w); t.puts == s.puts && t.pops == s.pops && t.fifo == s.fifo && t.shown == s.shown
  {
  }

  /** Which steps are calls on the semaphore or the mutex. */
  lemma NextPlain(s: Tty, w: nat)
    requires Enabled(s, w)
    ensures var pc := s.pcs[w];
            && (pc == LockCon ==> Next(s, w) == ConLock(s, w)) && (pc == UnlockCon ==> Next(s, w) == ConUnlock(s, w))
            && (pc.Signal? ==> Next(s, w) == SemNotify(s, w, Show(pc.item)))
            && (pc == WaitCr ==> Next(s, w) == SemWait(s, w, PutCr, BlockedCr))
            && (pc == WaitCh ==> Next(s, w) == SemWait(s, w, PutCh, BlockedCh))
  {
  }

  /** The steps that involve neither the semaphore nor the mutex. */
  lemma PlainInOrder(s: Tty, w: nat)
    requires Inv(s) && Enabled(s, w)
    requires var pc := s.pcs[w]; pc != LockCon && pc != UnlockCon && !pc.Signal? && pc != WaitCr && pc != WaitCh
    ensures InOrder(Next(s, w))
  {
    hide SumPcs, NoDup, Conserved, Pending, SemOk, MutexHeld, Carried, HoldsConsole;
    PlainPuts(s, w);
    PlainShown(s, w);
  }

  lemma PlainPuts(s: Tty, w: nat)
    requires Enabled(s, w) && s.puts == s.pops + s.fifo
    requires var pc := s.pcs[w]; pc != LockCon && pc != UnlockCon && !pc.Signal? && pc != WaitCr && pc != WaitCh
    ensures var t := Next(s, w); t.puts == t.pops + t.fifo
  {
    var pc, t := s.pcs[w], Next(s, w);
    if pc == Pop {
      MoveFront(s.pops, s.fifo);
    } else if pc == FilledCr {
      AppendLast(s.pops, s.fifo, Item(w, CR));
    } else if pc == FilledCh {
      AppendLast(s.pops, s.fifo, Item(w, s.texts[w][s.pos[w]]));
    }
  }

  lemma MoveFront(a: seq<Item>, b: seq<Item>)
    requires |b| > 0
    ensures (a + [b[0]]) + b[1..] == a + b
  {
  }

  lemma AppendLast(a: seq<Item>, b: seq<Item>, x: Item)
    ensures (a + b) + [x] == a + (b + [x])
  {
  }

  lemma PlainShown(s: Tty, w: nat)
    requires Enabled(s, w) && MutexHeld(s) && s.pops == s.shown + Carried(s)
    requires var pc := s.pcs[w]; pc != LockCon && pc != UnlockCon && !pc.Signal? && pc != WaitCr && pc != WaitCh
    ensures var t := Next(s, w); t.pops == t.shown + Carried(t)
  {
    hide MutexHeld, Carried;
    var pc, t := s.pcs[w], Next(s, w);
    CarriedGoto(s, w, t.pcs[w]);
    CarriedDepends(t, Goto(s, w, t.pcs[w]));
    if HoldsConsole(pc) {
      OwnerCarries(s, w);
    }
  }

  lemma CarriedDepends(s: Tty, t: Tty)
    requires s.mutex == t.mutex && s.pcs == t.pcs
    ensures Carried(s) == Carried(t)
  {
  }

  lemma OwnerCarries(s: Tty, w: nat)
    requires w < |s.pcs| && MutexHeld(s) && HoldsConsole(s.pcs[w])
    ensures Carried(s) == Between(s.pcs[w])
  {
  }

  // ---------------------------------------------------------------- tests made earlier

  lemma {:induction false} SumAtLeast(pcs: seq<Pc>, w: nat)
    requires w < |pcs|
    ensures SumPcs(pcs) >= Permit(pcs[w]) + InHand(pcs[w])
    decreases |pcs|
  {
    hide Permit, InHand;
    var n := |pcs| - 1;
    if w < n {
      SumAtLeast(pcs[..n], w);
    }
  }

  /** A task with a permit finds room: tty_fifo_put does not fail. */
  lemma PermitMeansRoom(s: Tty, w: nat)
    requires Inv(s) && w < |s.pcs| && Permit(s.pcs[w]) == 1
    ensures |s.fifo| < SIZE
  {
    hide SumPcs, MutexHeld, InOrder;
    SumAtLeast(s.pcs, w);
  }

  lemma SemWokenPcs(s: Tty, w: nat, next: Pc)
    requires w < |s.pcs| && SemOk(s) && s.pcs[w].Signal? && next.Show?
    ensures var u := SemNotify(s, w, next);
            |u.pcs| == |s.pcs| && forall t: nat :: t < |s.pcs| ==>
              u.pcs[t] == (if t == w then next else s.pcs[t]) || (BlockedOnSem(s.pcs[t]) && u.pcs[t] == Awakened(s.pcs[t]))
  {
  }

  lemma ConWokenPcs(s: Tty, w: nat)
    requires w < |s.pcs| && MutexHeld(s) && s.pcs[w] == UnlockCon
    ensures var u := ConUnlock(s, w);
            |u.pcs| == |s.pcs| && forall t: nat :: t < |s.pcs| ==>
              u.pcs[t] == (if t == w then Loop else s.pcs[t]) || (s.pcs[t] == BlockedCon && u.pcs[t] == Drain)
  {
  }

  lemma StepPending(s: Tty, w: nat)
    requires Inv(s) && Enabled(s, w) && Shape(Next(s, w)) && |Next(s, w).pcs| == |s.pcs|
    ensures Pending(Next(s, w))
  {
    hide SumPcs, NoDup, Conserved, MutexHeld, SemOk, InOrder, SemNotify, ConUnlock;
    var pc, u := s.pcs[w], Next(s, w);
    if pc.Signal? {
      SemWokenPcs(s, w, Show(pc.item));
      SemNotifyKeeps(s, w, Show(pc.item));
    } else if pc == UnlockCon {
      ConWokenPcs(s, w);
      ConUnlockKeeps(s, w);
    } else {
      PlainPending(s, w);
    }
  }

  lemma PlainPending(s: Tty, w: nat)
    requires Inv(s) && Enabled(s, w) && !s.pcs[w].Signal? && s.pcs[w] != UnlockCon && Shape(Next(s, w)) && |Next(s, w).pcs| == |s.pcs|
    ensures Pending(Next(s, w))
  {
    hide SumPcs, NoDup, Conserved, MutexHeld, SemOk, InOrder, SemNotify, ConUnlock, CallSem, LockMutex;
    var pc, u := s.pcs[w], Next(s, w);
    if Permit(pc) == 1 {
      PermitMeansRoom(s, w);
    }
    forall t: nat | t < |u.pcs| && u.pcs[t] == Pop
      ensures |u.fifo| > 0
    {
      if pc == Pop {
        OnePopperNow(s, w, t);
      }
    }
  }

  lemma OnePopperNow(s: Tty, w: nat, t: nat)
    requires Inv(s) && Enabled(s, w) && s.pcs[w] == Pop && t < |s.pcs|
    ensures Next(s, w).pcs[t] != Pop
  {
  }

  lemma SemNotifyKeeps(s: Tty, w: nat, next: Pc)
    requires w < |s.pcs|
    ensures var t := SemNotify(s, w, next); t.fifo == s.fifo && t.pos == s.pos && t.texts == s.texts
  {
  }

  lemma ConUnlockKeeps(s: Tty, w: nat)
    requires w < |s.pcs|
    ensures var t := ConUnlock(s, w); t.fifo == s.fifo && t.pos == s.pos && t.texts == s.texts
  {
  }

  // ---------------------------------------------------------------- every step, every run

  lemma StepKeepsInv(s: Tty, w: nat)
    requires Inv(s) && Enabled(s, w)
    ensures Inv(Next(s, w))
  {
    hide Next, Conserved, SemOk, MutexHeld, InOrder, Pending, Shape;
    StepShape(s, w);
    StepConserved(s, w);
    StepSemOk(s, w);
    StepMutexHeld(s, w);
    StepInOrder(s, w);
    StepPending(s, w);
  }

  /** A schedule names the task that moves at each step. */
  ghost predicate CanRun(s: Tty, schedule: seq<nat>)
    decreases |schedule|
  {
    |schedule| > 0 ==> Enabled(s, schedule[0]) && CanRun(Next(s, schedule[0]), schedule[1..])
  }

  ghost function Run(s: Tty, schedule: seq<nat>): Tty
    requires CanRun(s, schedule)
    decreases |schedule|
  {
    if |schedule| == 0 then s else Run(Next(s, schedule[0]), schedule[1..])
  }

  /**
   * In every interleaving of any writers: permits free, promised, filled and on their way
   * out add up to 512; no tty_fifo_put fails; and characters reach the console exactly in
   * the order in which they were put.
   */
  lemma {:induction false} PipelineInvariant(s: Tty, schedule: seq<nat>)
    requires Inv(s) && CanRun(s, schedule)
    ensures Inv(Run(s, schedule))
    decreases |schedule|
  {
    hide Inv, Next;
    if |schedule| > 0 {
      StepKeepsInv(s, schedule[0]);
      PipelineInvariant(Next(s, schedule[0]), schedule[1..]);
    }
  }
}
