/**
 * When a run of the writers can stop: what keeps a writer waiting, and why all texts are
 * shown unless 512 writers of newlines block each other.
 */
module TtyStops {
  import opened Sync
  import opened Fifo
  import opened Tty
  import opened TtyProofs
  import opened TtyLoads

  ghost predicate Stuck(s: Tty) {
    forall w: nat :: w < |s.pcs| ==> !Enabled(s, w)
  }

  /** The console's owner can always go on, so in a stuck state nobody holds or awaits the console. */
  lemma StuckConsole(s: Tty, w: nat)
    requires Inv(s) && Stuck(s) && w < |s.pcs|
    ensures !HoldsConsole(s.pcs[w]) && s.pcs[w] != BlockedCon
  {
    hide Conserved, SemOk, InOrder, NoDup, Enabled;
    if s.mutex.owner.Some? {
      OwnerCanMove(s);
    }
  }

  lemma OwnerCanMove(s: Tty)
    requires Inv(s) && s.mutex.owner.Some?
    ensures s.mutex.owner.value < |s.pcs| && Enabled(s, s.mutex.owner.value)
  {
    hide Conserved, SemOk, InOrder, NoDup;
    assert HoldsConsole(s.pcs[s.mutex.owner.value]);
  }

  /** What a writer that cannot move is doing. */
  lemma StuckAt(s: Tty, w: nat)
    requires Inv(s) && Stuck(s) && w < |s.pcs|
    ensures s.pcs[w] == BlockedCr || s.pcs[w] == BlockedCh || s.pcs[w] == Gone
  {
    hide Conserved, SemOk, InOrder, MutexHeld;
    StuckConsole(s, w);
    assert !Enabled(s, w);
  }

  // ---------------------------------------------------------------- who holds a place while waiting

  /** A writer that waits for a place for a character other than a newline. */
  predicate Plain(s: Tty, w: nat) {
    w < |s.pcs| && w < |s.pos| && w < |s.texts| && (s.pcs[w] == WaitCh || s.pcs[w] == BlockedCh) && s.pos[w] < |s.texts[w]| && s.texts[w][s.pos[w]] != NL
  }

  /** Such a writer has nothing outstanding: only a newline is waited for with its carriage return still in the buffer. */
  ghost predicate Spare(s: Tty) {
    forall w: nat :: Plain(s, w) ==> Load(s, w) == 0
  }

  /** No step of another task gives w anything to account for. */
  lemma StaysEmpty(s: Tty, u: nat, w: nat)
    requires Inv(s) && Enabled(s, u) && u != w && Tags(s.fifo, w) == 0 && Tags(InHands(s), w) == 0
    ensures var t := Next(s, u); Tags(t.fifo, w) == 0 && Tags(InHands(t), w) == 0
  {
    hide Conserved, SemOk, MutexHeld, InOrder, Pending, Tags, InHands, SemNotify, ConLock, ConUnlock;
    var pc, t := s.pcs[u], Next(s, u);
    NoTags(w);
    OwnerHand(s, u);
    if pc == FilledCr || pc == FilledCh {
      var x := t.fifo[|s.fifo|];
      assert t.fifo == s.fifo + [x] && x.w == u;
      TagsConcat(s.fifo, [x], w);
      TagsOne(x, w);
      HandsDepend(t, Goto(s, u, t.pcs[u]));
    } else if pc == Pop {
      assert s.fifo == [s.fifo[0]] + s.fifo[1..];
      TagsConcat([s.fifo[0]], s.fifo[1..], w);
      NewHand(s, u, Signal(s.fifo[0]));
      HandsDepend(t, Goto(s, u, Signal(s.fifo[0])));
    } else if pc.Signal? {
      SignalHands(s, u, pc.item);
    } else if pc == LockCon {
      ConLockHands(s, u);
      ConKeeps(s, u);
    } else if pc == UnlockCon {
      ConUnlockHands(s, u);
    } else if pc == Drain && |s.fifo| == 0 {
      NewHand(s, u, UnlockCon);
    } else {
      if HoldsConsole(pc) {
        NewHand(s, u, t.pcs[u]);
      }
      QuietHands(s, u);
    }
  }

  /** A step of w into or within such a wait. */
  lemma OwnWait(s: Tty, w: nat)
    requires Inv(s) && Loads(s) && Texts(s) && Spare(s) && Enabled(s, w) && Plain(Next(s, w), w)
    ensures Load(Next(s, w), w) == 0
  {
    hide Conserved, SemOk, MutexHeld, InOrder, Tags, InHands, SemNotify, ConLock, ConUnlock, Of, Expand;
    var pc, t := s.pcs[w], Next(s, w);
    assert TextAt(s, w) && Load(s, w) <= Cap(pc);
    OwnerHand(s, w);
    if pc == Loop || pc == WaitCh {
      QuietHands(s, w);
    } else if pc == LockCon {
      LockPc(s, w);
    } else if pc.Signal? {
      SemWokenPcs(s, w, Show(pc.item));
    } else if pc == UnlockCon {
      ConWokenPcs(s, w);
    }
  }

  lemma LockPc(s: Tty, w: nat)
    requires w < |s.pcs|
    ensures ConLock(s, w).pcs[w] == Drain || ConLock(s, w).pcs[w] == BlockedCon
  {
  }

  /** Another task's step leaves such a wait, and does not begin one. */
  lemma OthersWait(s: Tty, u: nat, w: nat)
    requires Inv(s) && Enabled(s, u) && u != w && Plain(Next(s, u), w)
    ensures Plain(s, w) && Next(s, u).pcs[w] == s.pcs[w]
  {
    hide Conserved, InOrder, SemNotify, ConUnlock, MutexHeld, NoDup, CallSem, LockMutex;
    var pc := s.pcs[u];
    if pc.Signal? {
      SemWokenPcs(s, u, Show(pc.item));
      SemKeeps(s, u, Show(pc.item), Show(pc.item));
      SemNotifyKeeps(s, u, Show(pc.item));
    } else if pc == UnlockCon {
      ConWokenPcs(s, u);
      ConKeeps(s, u);
      ConUnlockKeeps(s, u);
    }
  }

  lemma StepSpare(s: Tty, u: nat)
    requires Inv(s) && Loads(s) && Texts(s) && Spare(s) && Enabled(s, u)
    ensures Spare(Next(s, u))
  {
    hide Inv, Loads, Texts, Next, Plain, Enabled, Tags, InHands;
    var t := Next(s, u);
    forall w: nat | Plain(t, w)
      ensures w < |t.pcs| && Load(t, w) == 0
    {
      PlainIndex(t, w);
      if w == u {
        OwnWait(s, u);
      } else {
        OthersWait(s, u, w);
        PlainIndex(s, w);
        assert Load(s, w) == 0;
        StaysEmpty(s, u, w);
      }
    }
  }

  lemma PlainIndex(s: Tty, w: nat)
    requires Plain(s, w)
    ensures w < |s.pcs| && Permit(s.pcs[w]) == 0
  {
  }

  /** All that holds in every run from the start on. */
  ghost predicate Reached(s: Tty) {
    Inv(s) && Loads(s) && Texts(s) && Spare(s)
  }

  lemma OpenedReached(texts: seq<seq<Char>>)
    ensures Reached(Opened(texts))
  {
    hide Inv, Loads, Texts;
    OpenedLoads(texts);
    OpenedTexts(texts);
  }

  lemma {:induction false} RunReached(s: Tty, schedule: seq<nat>)
    requires Reached(s) && CanRun(s, schedule)
    ensures Reached(Run(s, schedule))
    decreases |schedule|
  {
    hide Inv, Loads, Texts, Spare, Next;
    if |schedule| > 0 {
      StepKeepsInv(s, schedule[0]);
      StepLoads(s, schedule[0]);
      StepTexts(s, schedule[0]);
      StepSpare(s, schedule[0]);
      RunReached(Next(s, schedule[0]), schedule[1..]);
    }
  }

  // ---------------------------------------------------------------- the bound

  /** How many of the first n texts contain a newline. */
  function Newlines(texts: seq<seq<Char>>, n: nat): (k: nat)
    requires n <= |texts|
    ensures k <= n
  {
    if n == 0 then 0 else Newlines(texts, n - 1) + if NL in texts[n - 1] then 1 else 0
  }

  lemma StuckLoad(s: Tty, w: nat)
    requires Reached(s) && Stuck(s) && w < |s.pcs| && w < |s.texts|
    ensures Load(s, w) <= if NL in s.texts[w] then 1 else 0
  {
    hide Inv, Stuck, Load, Of, Expand;
    StuckAt(s, w);
    assert Load(s, w) <= Cap(s.pcs[w]) && TextAt(s, w);
    if s.pcs[w] == BlockedCh && s.texts[w][s.pos[w]] != NL {
      assert Plain(s, w);
    }
  }

  lemma {:induction false} StuckLoads(s: Tty, n: nat)
    requires Reached(s) && Stuck(s) && n <= |s.pcs| == |s.texts|
    ensures SumLoads(s, n) <= Newlines(s.texts, n)
    decreases n
  {
    hide Load, Reached, Stuck;
    if n > 0 {
      StuckLoads(s, n - 1);
      StuckLoad(s, n - 1);
    }
  }

  /** Unless 512 of the texts contain a newline, nobody can move only when everybody is done: no deadlock, no lost wakeup. */
  lemma StuckMeansDone(s: Tty, w: nat)
    requires Reached(s) && Stuck(s) && |s.pcs| == |s.texts| && Newlines(s.texts, |s.texts|) < SIZE && w < |s.pcs|
    ensures s.pcs[w] == Gone
  {
    hide Conserved, InOrder, MutexHeld, SumLoads, Load, Stuck, Pending, Texts, Spare, Newlines;
    StuckAt(s, w);
    CountIsFree(s);
    StuckLoads(s, |s.pcs|);
    assert s.sem.count > 0 && s.sem.waiters == [];
  }

  lemma RunDone(texts: seq<seq<Char>>, schedule: seq<nat>, w: nat)
    requires CanRun(Opened(texts), schedule) && Newlines(texts, |texts|) < SIZE && Stuck(Run(Opened(texts), schedule))
    ensures var s := Run(Opened(texts), schedule); |s.pcs| == |texts| && (w < |s.pcs| ==> s.pcs[w] == Gone)
  {
    hide Reached, Run, CanRun, Stuck, Newlines;
    OpenedReached(texts);
    RunReached(Opened(texts), schedule);
    RunSameTexts(Opened(texts), schedule);
    var s := Run(Opened(texts), schedule);
    if w < |s.pcs| {
      StuckMeansDone(s, w);
    }
  }

  /**
   * Every run that cannot go on, unless 512 of the texts contain a newline, has shown
   * everything: each writer's part of the console's input is its whole text, in order,
   * newlines expanded.
   */
  lemma StoppedRunIsShown(texts: seq<seq<Char>>, schedule: seq<nat>, w: nat)
    requires Newlines(texts, |texts|) < SIZE && CanRun(Opened(texts), schedule) && w < |texts| && Stuck(Run(Opened(texts), schedule))
    ensures var s := Run(Opened(texts), schedule);
            s.fifo == [] && s.shown == s.puts && Of(s.shown, w) == Expand(texts[w])
  {
    hide Run, CanRun, Stuck, Of, Expand, Newlines;
    var s := Run(Opened(texts), schedule);
    forall t: nat | t < |s.pcs|
      ensures s.pcs[t] == Gone
    {
      RunDone(texts, schedule, t);
    }
    EverythingIsShown(texts, schedule, w);
  }
}
