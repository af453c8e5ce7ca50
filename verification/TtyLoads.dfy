/**
 * What each writer has outstanding, and what becomes of its text.
 */
module TtyLoads {
  import opened Options
  import opened Sync
  import opened Fifo
  import opened Tty
  import opened TtyProofs

  // ---------------------------------------------------------------- counting by writer

  /** How many of the items were written by w. */
  function Tags(xs: seq<Item>, w: nat): nat
    decreases |xs|
  {
    if |xs| == 0 then 0 else Tags(xs[..|xs| - 1], w) + if xs[|xs| - 1].w == w then 1 else 0
  }

  lemma {:induction false} TagsConcat(xs: seq<Item>, ys: seq<Item>, w: nat)
    ensures Tags(xs + ys, w) == Tags(xs, w) + Tags(ys, w)
    decreases |ys|
  {
    if |ys| == 0 {
      assert xs + ys == xs;
    } else {
      var n := |ys| - 1;
      assert (xs + ys)[..|xs + ys| - 1] == xs + ys[..n];
      TagsConcat(xs, ys[..n], w);
    }
  }

  lemma TagsOne(x: Item, w: nat)
    ensures Tags([x], w) == if x.w == w then 1 else 0
  {
  }

  /** The item a task has popped and not yet signalled. */
  function Hand(pc: Pc): seq<Item> {
    if pc.Signal? then [pc.item] else []
  }

  /** The item in the console owner's hand. */
  function InHands(s: Tty): seq<Item> {
    if s.mutex.owner.Some? && s.mutex.owner.value < |s.pcs| then Hand(s.pcs[s.mutex.owner.value]) else []
  }

  /** Permits and characters of w that have not been given back to the semaphore. */
  function Load(s: Tty, w: nat): nat
    requires w < |s.pcs|
  {
    Permit(s.pcs[w]) + Tags(s.fifo, w) + Tags(InHands(s), w)
  }

  /** How much a task can have outstanding at pc. */
  function Cap(pc: Pc): nat {
    match pc
    case Loop => 0
    case WaitCr => 0
    case BlockedCr => 0
    case UnlockCon => 0
    case Gone => 0
    case PutCr => 1
    case FilledCr => 1
    case WaitCh => 1
    case BlockedCh => 1
    case _ => 2
  }

  /** Every item belongs to one of the writers. */
  ghost predicate Known(s: Tty) {
    (forall i :: 0 <= i < |s.fifo| ==> s.fifo[i].w < |s.pcs|) && (forall i :: 0 <= i < |InHands(s)| ==> InHands(s)[i].w < |s.pcs|)
  }

  ghost predicate Loads(s: Tty) {
    Known(s) && forall w: nat :: w < |s.pcs| ==> Load(s, w) <= Cap(s.pcs[w])
  }

  // ---------------------------------------------------------------- loads step by step

  lemma OwnerHand(s: Tty, w: nat)
    requires w < |s.pcs| && MutexHeld(s)
    ensures HoldsConsole(s.pcs[w]) ==> InHands(s) == Hand(s.pcs[w])
    ensures !HoldsConsole(s.pcs[w]) ==> forall pc: Pc :: InHands(Goto(s, w, pc)) == InHands(s)
  {
  }

  lemma NewHand(s: Tty, w: nat, pc: Pc)
    requires w < |s.pcs| && MutexHeld(s) && HoldsConsole(s.pcs[w])
    ensures InHands(Goto(s, w, pc)) == Hand(pc)
  {
  }

  /** A step of w that leaves every other pc, the buffer and the hands alone. */
  lemma QuietLoads(s: Tty, t: Tty, w: nat)
    requires Loads(s) && w < |s.pcs| && |t.pcs| == |s.pcs| && t.fifo == s.fifo && InHands(t) == InHands(s)
    requires forall u: nat :: u < |s.pcs| && u != w ==> t.pcs[u] == s.pcs[u]
    requires Permit(t.pcs[w]) <= Permit(s.pcs[w]) + (Cap(t.pcs[w]) - Cap(s.pcs[w]))
    ensures Loads(t)
  {
  }

  /** tty_fifo_put turns a permit into a character. */
  lemma InsertLoads(s: Tty, w: nat, c: Char, pc: Pc, pos: seq<nat>)
    requires Inv(s) && Loads(s) && w < |s.pcs| && Permit(s.pcs[w]) == 1 && Permit(pc) == 0 && Cap(pc) == Cap(s.pcs[w])
    ensures Loads(Goto(Insert(s, w, c).(pos := pos), w, pc))
  {
    hide Tags, Cap, InHands, Inv;
    var t := Goto(Insert(s, w, c).(pos := pos), w, pc);
    assert MutexHeld(s) && !HoldsConsole(s.pcs[w]) by {
      PermitNotHolder(s, w);
    }
    OwnerHand(s, w);
    assert InHands(t) == InHands(Goto(s, w, pc)) by {
      HandsDepend(t, Goto(s, w, pc));
    }
    forall u: nat | u < |t.pcs|
      ensures Load(t, u) <= Cap(t.pcs[u])
    {
      TagsConcat(s.fifo, [Item(w, c)], u);
      TagsOne(Item(w, c), u);
      assert Load(s, u) <= Cap(s.pcs[u]);
    }
  }

  lemma PermitNotHolder(s: Tty, w: nat)
    requires Inv(s) && w < |s.pcs| && Permit(s.pcs[w]) == 1
    ensures MutexHeld(s) && !HoldsConsole(s.pcs[w])
  {
  }

  lemma HandsDepend(s: Tty, t: Tty)
    requires s.mutex == t.mutex && s.pcs == t.pcs
    ensures InHands(s) == InHands(t)
  {
  }

  lemma PopLoads(s: Tty, w: nat)
    requires Inv(s) && Loads(s) && w < |s.pcs| && s.pcs[w] == Pop && |s.fifo| > 0
    ensures Loads(Goto(s.(fifo := s.fifo[1..], pops := s.pops + [s.fifo[0]]), w, Signal(s.fifo[0])))
  {
    hide Tags, Cap, InHands, Conserved, SemOk, MutexHeld, InOrder, Pending;
    var x := s.fifo[0];
    var t := Goto(s.(fifo := s.fifo[1..], pops := s.pops + [x]), w, Signal(x));
    OwnerHand(s, w);
    NewHand(s, w, Signal(x));
    HandsDepend(t, Goto(s, w, Signal(x)));
    assert s.fifo == [x] + s.fifo[1..];
    assert InHands(s) == [] && InHands(t) == [x];
    forall u: nat | u < |t.pcs|
      ensures Load(t, u) <= Cap(t.pcs[u])
    {
      TagsConcat([x], s.fifo[1..], u);
      assert Load(s, u) <= Cap(s.pcs[u]) && Cap(t.pcs[u]) == Cap(s.pcs[u]) by {
        CapPop(s, w, x, u);
      }
      NoTags(u);
    }
  }

  lemma CapPop(s: Tty, w: nat, x: Item, u: nat)
    requires Loads(s) && w < |s.pcs| && s.pcs[w] == Pop && u < |s.pcs|
    ensures Load(s, u) <= Cap(s.pcs[u]) && Cap(s.pcs[w := Signal(x)][u]) == Cap(s.pcs[u])
  {
  }

  lemma NoTags(w: nat)
    ensures Tags([], w) == 0
  {
  }

  /** sem_notify lets go of the item in hand; a woken task gets a permit where it may hold one more. */
  lemma SignalLoads(s: Tty, w: nat, item: Item)
    requires Inv(s) && Loads(s) && w < |s.pcs| && s.pcs[w] == Signal(item)
    ensures Loads(SemNotify(s, w, Show(item)))
  {
    hide Tags, InHands, Conserved, SemOk, MutexHeld, InOrder, Pending;
    var t := SemNotify(s, w, Show(item));
    OwnerHand(s, w);
    SignalHands(s, w, item);
    SemWokenPcs(s, w, Show(item));
    assert InHands(t) == [];
    forall u: nat | u < |t.pcs|
      ensures Load(t, u) <= Cap(t.pcs[u])
    {
      NoTags(u);
      assert Load(s, u) <= Cap(s.pcs[u]);
    }
  }

  lemma SignalHands(s: Tty, w: nat, item: Item)
    requires Inv(s) && w < |s.pcs| && s.pcs[w] == Signal(item)
    ensures InHands(SemNotify(s, w, Show(item))) == [] && SemNotify(s, w, Show(item)).fifo == s.fifo
  {
  }

  /** An empty buffer means that the owner has nothing left outstanding. */
  lemma DrainedLoads(s: Tty, w: nat)
    requires Inv(s) && Loads(s) && w < |s.pcs| && s.pcs[w] == Drain && |s.fifo| == 0
    ensures Loads(Goto(s, w, UnlockCon))
  {
    hide Conserved, SemOk, MutexHeld, InOrder, Pending, InHands;
    var t := Goto(s, w, UnlockCon);
    OwnerHand(s, w);
    NewHand(s, w, UnlockCon);
    forall u: nat | u < |t.pcs|
      ensures Load(t, u) <= Cap(t.pcs[u])
    {
      NoTags(u);
      assert Load(s, u) <= Cap(s.pcs[u]);
    }
  }

  lemma ConLoads(s: Tty, w: nat)
    requires Inv(s) && Loads(s) && w < |s.pcs|
    ensures s.pcs[w] == LockCon ==> Loads(ConLock(s, w))
    ensures s.pcs[w] == UnlockCon ==> Loads(ConUnlock(s, w))
  {
    hide Conserved, SemOk, MutexHeld, InOrder, Pending, Tags, InHands;
    if s.pcs[w] == LockCon {
      ConLockHands(s, w);
      QuietLoads(s, ConLock(s, w), w);
    } else if s.pcs[w] == UnlockCon {
      var t := ConUnlock(s, w);
      ConUnlockHands(s, w);
      ConWokenPcs(s, w);
      forall u: nat | u < |t.pcs|
        ensures Load(t, u) <= Cap(t.pcs[u])
      {
        assert Load(s, u) <= Cap(s.pcs[u]);
      }
    }
  }

  lemma ConLockHands(s: Tty, w: nat)
    requires MutexHeld(s) && w < |s.pcs| && s.pcs[w] == LockCon
    ensures InHands(ConLock(s, w)) == InHands(s)
  {
  }

  lemma ConUnlockHands(s: Tty, w: nat)
    requires MutexHeld(s) && w < |s.pcs| && s.pcs[w] == UnlockCon
    ensures InHands(ConUnlock(s, w)) == InHands(s) == [] && ConUnlock(s, w).fifo == s.fifo
  {
  }

  lemma QuietStep(s: Tty, w: nat)
    requires Inv(s) && Loads(s) && Enabled(s, w)
    requires var pc := s.pcs[w]; pc == Loop || pc == WaitCr || pc == WaitCh || pc == PutCr || pc == PutCh || pc.Show? || (pc == Drain && |s.fifo| > 0)
    ensures Loads(Next(s, w))
  {
    hide Conserved, SemOk, MutexHeld, InOrder, Tags, InHands;
    var t := Next(s, w);
    if Permit(s.pcs[w]) == 1 {
      PermitMeansRoom(s, w);
    }
    OwnerHand(s, w);
    if HoldsConsole(s.pcs[w]) {
      NewHand(s, w, t.pcs[w]);
    }
    QuietHands(s, w);
    QuietLoads(s, t, w);
  }

  lemma QuietHands(s: Tty, w: nat)
    requires Enabled(s, w)
    requires var pc := s.pcs[w]; pc == Loop || pc == WaitCr || pc == WaitCh || pc == PutCr || pc == PutCh || pc.Show? || (pc == Drain && |s.fifo| > 0)
    ensures InHands(Next(s, w)) == InHands(Goto(s, w, Next(s, w).pcs[w]))
  {
  }

  lemma StepLoads(s: Tty, w: nat)
    requires Inv(s) && Loads(s) && Enabled(s, w)
    ensures Loads(Next(s, w))
  {
    hide Loads, Inv, SemNotify, SemWait, ConLock, ConUnlock;
    var pc := s.pcs[w];
    if pc == FilledCr {
      InsertLoads(s, w, CR, WaitCh, s.pos);
    } else if pc == FilledCh {
      InsertLoads(s, w, s.texts[w][s.pos[w]], LockCon, s.pos[w := s.pos[w] + 1]);
    } else if pc == Pop {
      PopLoads(s, w);
    } else if pc.Signal? {
      SignalLoads(s, w, pc.item);
    } else if pc == LockCon || pc == UnlockCon {
      ConLoads(s, w);
    } else if pc == Drain && |s.fifo| == 0 {
      DrainedLoads(s, w);
    } else {
      QuietStep(s, w);
    }
  }

  // ---------------------------------------------------------------- the semaphore never blocks

  /** Items of the first n writers, counted writer by writer. */
  function SumTags(xs: seq<Item>, n: nat): nat {
    if n == 0 then 0 else SumTags(xs, n - 1) + Tags(xs, n - 1)
  }

  lemma {:induction false} SumTagsAppend(xs: seq<Item>, x: Item, n: nat)
    ensures SumTags(xs + [x], n) == SumTags(xs, n) + if x.w < n then 1 else 0
    decreases n
  {
    if n > 0 {
      SumTagsAppend(xs, x, n - 1);
      TagsConcat(xs, [x], n - 1);
      TagsOne(x, n - 1);
    }
  }

  lemma {:induction false} SumTagsEmpty(n: nat)
    ensures SumTags([], n) == 0
    decreases n
  {
    if n > 0 {
      SumTagsEmpty(n - 1);
    }
  }

  /** Counting by writer loses no item. */
  lemma {:induction false} SumTagsAll(xs: seq<Item>, n: nat)
    requires forall i :: 0 <= i < |xs| ==> xs[i].w < n
    ensures SumTags(xs, n) == |xs|
    decreases |xs|
  {
    hide SumTags;
    if |xs| == 0 {
      SumTagsEmpty(n);
    } else {
      var k := |xs| - 1;
      assert xs == xs[..k] + [xs[k]];
      SumTagsAll(xs[..k], n);
      SumTagsAppend(xs[..k], xs[k], n);
    }
  }

  function SumPermits(pcs: seq<Pc>, n: nat): nat
    requires n <= |pcs|
  {
    if n == 0 then 0 else SumPermits(pcs, n - 1) + Permit(pcs[n - 1])
  }

  function SumHands(pcs: seq<Pc>, n: nat): nat
    requires n <= |pcs|
  {
    if n == 0 then 0 else SumHands(pcs, n - 1) + InHand(pcs[n - 1])
  }

  lemma {:induction false} SumPcsSplit(pcs: seq<Pc>, n: nat)
    requires n <= |pcs|
    ensures SumPcs(pcs[..n]) == SumPermits(pcs, n) + SumHands(pcs, n)
    decreases n
  {
    hide Permit, InHand;
    if n > 0 {
      assert pcs[..n][..n - 1] == pcs[..n - 1];
      SumPcsSplit(pcs, n - 1);
    }
  }

  /** Only one task can have an item in hand. */
  lemma {:induction false} OneHand(pcs: seq<Pc>, n: nat, o: nat)
    requires n <= |pcs| && forall t: nat :: t < |pcs| && pcs[t].Signal? ==> t == o
    ensures SumHands(pcs, n) == if o < n && pcs[o].Signal? then 1 else 0
    decreases n
  {
    if n > 0 {
      OneHand(pcs, n - 1, o);
    }
  }

  lemma HandsCounted(s: Tty)
    requires Inv(s)
    ensures SumHands(s.pcs, |s.pcs|) == |InHands(s)|
  {
    hide SumPcs, Conserved, SemOk, InOrder, Pending, MutexOk, SumHands;
    var o := if s.mutex.owner.Some? then s.mutex.owner.value else |s.pcs|;
    OneHand(s.pcs, |s.pcs|, o);
  }

  function SumLoads(s: Tty, n: nat): nat
    requires n <= |s.pcs|
  {
    if n == 0 then 0 else SumLoads(s, n - 1) + Load(s, n - 1)
  }

  lemma {:induction false} SumLoadsSplit(s: Tty, n: nat)
    requires n <= |s.pcs|
    ensures SumLoads(s, n) == SumPermits(s.pcs, n) + SumTags(s.fifo, n) + SumTags(InHands(s), n)
    decreases n
  {
    hide Permit, Tags, InHands;
    if n > 0 {
      SumLoadsSplit(s, n - 1);
    }
  }

  /** The permits that are not free are what the writers have outstanding. */
  lemma CountIsFree(s: Tty)
    requires Inv(s) && Known(s)
    ensures s.sem.count == SIZE - SumLoads(s, |s.pcs|)
  {
    hide SumPcs, MutexHeld, SemOk, InOrder, Pending, SumLoads, SumTags, InHands, SumHands, SumPermits;
    var n := |s.pcs|;
    assert s.pcs[..n] == s.pcs;
    SumPcsSplit(s.pcs, n);
    HandsCounted(s);
    SumLoadsSplit(s, n);
    SumTagsAll(s.fifo, n);
    SumTagsAll(InHands(s), n);
  }

  lemma {:induction false} LoadsBound(s: Tty, n: nat, w: nat)
    requires Loads(s) && n <= |s.pcs| && w < |s.pcs| && Cap(s.pcs[w]) <= 1
    ensures SumLoads(s, n) <= 2 * n - if w < n then 1 else 0
    decreases n
  {
    hide Load;
    if n > 0 {
      LoadsBound(s, n - 1, w);
      assert Load(s, n - 1) <= Cap(s.pcs[n - 1]) <= 2;
    }
  }

  /** With at most 256 writers a task that is about to wait for a permit finds one. */
  lemma PermitAvailable(s: Tty, w: nat)
    requires Inv(s) && Loads(s) && |s.pcs| <= 256 && w < |s.pcs| && (s.pcs[w] == WaitCr || s.pcs[w] == WaitCh)
    ensures s.sem.count > 0
  {
    hide Inv, SumLoads, Load, InHands;
    CountIsFree(s);
    LoadsBound(s, |s.pcs|, w);
  }

  ghost predicate NobodyBlocked(s: Tty) {
    forall t: nat :: t < |s.pcs| ==> !BlockedOnSem(s.pcs[t])
  }

  lemma StepUnblocked(s: Tty, w: nat)
    requires Inv(s) && Loads(s) && Enabled(s, w) && |s.pcs| <= 256 && NobodyBlocked(s)
    ensures NobodyBlocked(Next(s, w))
  {
    hide Inv, Loads, SemNotify, ConUnlock, LockMutex, NoDup, MutexOk;
    var pc := s.pcs[w];
    if pc == WaitCr || pc == WaitCh {
      PermitAvailable(s, w);
    } else if pc.Signal? {
      InvSem(s);
      SemWokenPcs(s, w, Show(pc.item));
    } else if pc == UnlockCon {
      InvSem(s);
      ConWokenPcs(s, w);
    }
  }

  lemma InvSem(s: Tty)
    requires Inv(s)
    ensures SemOk(s) && MutexHeld(s)
  {
  }

  lemma OpenedLoads(texts: seq<seq<Char>>)
    ensures Inv(Opened(texts)) && Loads(Opened(texts)) && NobodyBlocked(Opened(texts))
  {
    OpenedInv(texts);
  }

  lemma {:induction false} RunLoads(s: Tty, schedule: seq<nat>)
    requires Inv(s) && Loads(s) && CanRun(s, schedule)
    ensures Inv(Run(s, schedule)) && Loads(Run(s, schedule))
    decreases |schedule|
  {
    hide Inv, Loads, Next;
    if |schedule| > 0 {
      StepKeepsInv(s, schedule[0]);
      StepLoads(s, schedule[0]);
      RunLoads(Next(s, schedule[0]), schedule[1..]);
    }
  }

  lemma {:induction false} RunUnblocked(s: Tty, schedule: seq<nat>)
    requires Inv(s) && Loads(s) && |s.pcs| <= 256 && NobodyBlocked(s) && CanRun(s, schedule)
    ensures NobodyBlocked(Run(s, schedule))
    decreases |schedule|
  {
    hide Inv, Loads, Next, NobodyBlocked;
    if |schedule| > 0 {
      StepKeepsInv(s, schedule[0]);
      StepLoads(s, schedule[0]);
      StepUnblocked(s, schedule[0]);
      StepShape(s, schedule[0]);
      RunUnblocked(Next(s, schedule[0]), schedule[1..]);
    }
  }

  /** With at most 256 concurrent writers sem_wait(osem) never blocks, in any interleaving. */
  lemma WritersNeverBlock(texts: seq<seq<Char>>, schedule: seq<nat>)
    requires |texts| <= 256 && CanRun(Opened(texts), schedule)
    ensures NobodyBlocked(Run(Opened(texts), schedule))
  {
    hide Inv, Loads, NobodyBlocked, Run, CanRun;
    OpenedLoads(texts);
    RunUnblocked(Opened(texts), schedule);
  }

  // ---------------------------------------------------------------- what becomes of a text

  /** The characters of w among the items, in order. */
  function Of(xs: seq<Item>, w: nat): seq<Char>
    decreases |xs|
  {
    if |xs| == 0 then [] else Of(xs[..|xs| - 1], w) + if xs[|xs| - 1].w == w then [xs[|xs| - 1].c] else []
  }

  /** A text with a carriage return before every newline. */
  function Expand(text: seq<Char>): seq<Char>
    decreases |text|
  {
    if |text| == 0 then []
    else
      var c := text[|text| - 1];
      Expand(text[..|text| - 1]) + if c == NL then [CR, NL] else [c]
  }

  lemma OfAppend(xs: seq<Item>, x: Item, w: nat)
    ensures Of(xs + [x], w) == Of(xs, w) + if x.w == w then [x.c] else []
  {
  }

  predicate BeforeCr(pc: Pc) {
    pc == WaitCr || pc == BlockedCr || pc == PutCr || pc == FilledCr
  }

  predicate BeforeCh(pc: Pc) {
    pc == WaitCh || pc == BlockedCh || pc == PutCh || pc == FilledCh
  }

  /** What w has put so far: the text up to its position and, within a newline, the carriage return. */
  ghost predicate TextAt(s: Tty, w: nat)
    requires Shape(s) && w < |s.pcs|
  {
    var text, pos, pc := s.texts[w], s.pos[w], s.pcs[w];
    && (BeforeCr(pc) ==> pos < |text| && text[pos] == NL)
    && (BeforeCh(pc) ==> pos < |text|)
    && (pc == Gone ==> pos == |text|)
    && Of(s.puts, w) == Expand(text[..pos]) + if BeforeCh(pc) && text[pos] == NL then [CR] else []
  }

  ghost predicate Texts(s: Tty) {
    Shape(s) && forall w: nat :: w < |s.pcs| ==> TextAt(s, w)
  }

  lemma ExpandStep(text: seq<Char>, pos: nat)
    requires pos < |text|
    ensures Expand(text[..pos + 1]) == Expand(text[..pos]) + if text[pos] == NL then [CR, NL] else [text[pos]]
  {
    assert text[..pos + 1][..pos] == text[..pos];
  }

  /** A pc change that keeps a text's progress. */
  predicate SameStage(a: Pc, b: Pc) {
    (BeforeCr(b) ==> BeforeCr(a)) && BeforeCh(a) == BeforeCh(b) && (b == Gone ==> a == Gone)
  }

  lemma TextKept(s: Tty, t: Tty, u: nat)
    requires Shape(s) && Shape(t) && u < |s.pcs| == |t.pcs| && TextAt(s, u)
    requires t.texts[u] == s.texts[u] && t.pos[u] == s.pos[u] && Of(t.puts, u) == Of(s.puts, u) && SameStage(s.pcs[u], t.pcs[u])
    ensures TextAt(t, u)
  {
  }

  lemma InsertTexts(s: Tty, w: nat)
    requires Texts(s) && Enabled(s, w) && (s.pcs[w] == FilledCr || s.pcs[w] == FilledCh) && Shape(Next(s, w))
    ensures Texts(Next(s, w))
  {
    hide Of, Expand;
    var t := Next(s, w);
    var x := if s.pcs[w] == FilledCr then Item(w, CR) else Item(w, s.texts[w][s.pos[w]]);
    forall u: nat | u < |t.pcs|
      ensures TextAt(t, u)
    {
      OfAppend(s.puts, x, u);
      assert TextAt(s, u);
      if u != w {
        assert Of(s.puts, u) + [] == Of(s.puts, u);
      } else if s.pcs[w] == FilledCr {
        assert Expand(s.texts[w][..s.pos[w]]) + [] == Expand(s.texts[w][..s.pos[w]]);
      } else {
        ExpandStep(s.texts[w], s.pos[w]);
        InsertedText(Expand(s.texts[w][..s.pos[w]]), x.c);
      }
    }
  }

  lemma InsertedText(e: seq<Char>, c: Char)
    ensures c == NL ==> e + [CR] + [NL] == e + [CR, NL] + []
    ensures e + [] + [c] == e + [c] + []
  {
  }

  lemma LoopTexts(s: Tty, w: nat)
    requires Texts(s) && Enabled(s, w) && s.pcs[w] == Loop && Shape(Next(s, w))
    ensures Texts(Next(s, w))
  {
    hide Of, Expand;
    var t := Next(s, w);
    forall u: nat | u < |t.pcs|
      ensures TextAt(t, u)
    {
      assert TextAt(s, u);
    }
  }

  lemma StepTexts(s: Tty, w: nat)
    requires Inv(s) && Texts(s) && Enabled(s, w)
    ensures Texts(Next(s, w))
  {
    hide Of, Expand, Conserved, SemOk, MutexHeld, InOrder, SemNotify, ConUnlock, TextAt;
    var pc, t := s.pcs[w], Next(s, w);
    StepShape(s, w);
    if pc == FilledCr || pc == FilledCh {
      InsertTexts(s, w);
    } else if pc == Loop {
      LoopTexts(s, w);
    } else {
      StepPending(s, w);
      StagesKept(s, w);
      forall u: nat | u < |t.pcs|
        ensures TextAt(t, u)
      {
        TextKept(s, t, u);
      }
    }
  }

  /** Steps other than puts and loop heads change neither texts, positions, puts nor stages. */
  lemma StagesKept(s: Tty, w: nat)
    requires Inv(s) && Enabled(s, w) && s.pcs[w] != FilledCr && s.pcs[w] != FilledCh && s.pcs[w] != Loop
    ensures var t := Next(s, w);
            && t.texts == s.texts && t.pos == s.pos && t.puts == s.puts && |t.pcs| == |s.pcs|
            && forall u: nat :: u < |s.pcs| ==> SameStage(s.pcs[u], t.pcs[u])
  {
    hide Conserved, InOrder, SemNotify, ConUnlock, MutexHeld, NoDup, CallSem, LockMutex;
    var pc := s.pcs[w];
    if pc.Signal? {
      SemWokenPcs(s, w, Show(pc.item));
      SemKeeps(s, w, Show(pc.item), Show(pc.item));
      SemNotifyKeeps(s, w, Show(pc.item));
    } else if pc == UnlockCon {
      ConWokenPcs(s, w);
      ConKeeps(s, w);
      ConUnlockKeeps(s, w);
    } else if Permit(pc) == 1 {
      PermitMeansRoom(s, w);
    }
  }

  lemma {:induction false} RunTexts(s: Tty, schedule: seq<nat>)
    requires Inv(s) && Texts(s) && CanRun(s, schedule)
    ensures Texts(Run(s, schedule))
    decreases |schedule|
  {
    hide Inv, Texts, Next;
    if |schedule| > 0 {
      StepKeepsInv(s, schedule[0]);
      StepTexts(s, schedule[0]);
      RunTexts(Next(s, schedule[0]), schedule[1..]);
    }
  }

  lemma OpenedTexts(texts: seq<seq<Char>>)
    ensures Texts(Opened(texts))
  {
  }

  lemma {:induction false} NoTagsMeansEmpty(xs: seq<Item>, n: nat)
    requires (forall i :: 0 <= i < |xs| ==> xs[i].w < n) && forall w: nat :: w < n ==> Tags(xs, w) == 0
    ensures xs == []
  {
    if |xs| > 0 {
      assert Tags(xs, xs[|xs| - 1].w) >= 1;
    }
  }

  /**
   * When every writer is done, everything put has reached the console, and each writer's
   * part of the console's input is its whole text, in order, newlines expanded.
   */
  lemma EverythingIsShown(texts: seq<seq<Char>>, schedule: seq<nat>, w: nat)
    requires CanRun(Opened(texts), schedule) && w < |texts|
    requires var s := Run(Opened(texts), schedule); forall t: nat :: t < |s.pcs| ==> s.pcs[t] == Gone
    ensures var s := Run(Opened(texts), schedule);
            s.fifo == [] && s.shown == s.puts && s.texts == texts && w < |s.pcs| && Of(s.shown, w) == Expand(texts[w])
  {
    hide Run, CanRun, Of, Expand, Conserved, SemOk, Pending, MutexOk;
    OpenedLoads(texts);
    OpenedTexts(texts);
    RunLoads(Opened(texts), schedule);
    RunTexts(Opened(texts), schedule);
    RunSameTexts(Opened(texts), schedule);
    var s := Run(Opened(texts), schedule);
    assert s.mutex.owner == None;
    forall t: nat | t < |s.pcs|
      ensures Tags(s.fifo, t) == 0
    {
      assert Load(s, t) <= Cap(s.pcs[t]);
    }
    NoTagsMeansEmpty(s.fifo, |s.pcs|);
    assert TextAt(s, w);
    assert texts[w][..|texts[w]|] == texts[w];
  }

  lemma {:induction false} RunSameTexts(s: Tty, schedule: seq<nat>)
    requires CanRun(s, schedule)
    ensures Run(s, schedule).texts == s.texts && |Run(s, schedule).pcs| == |s.pcs|
    decreases |schedule|
  {
    hide Next;
    if |schedule| > 0 {
      StepSameTexts(s, schedule[0]);
      RunSameTexts(Next(s, schedule[0]), schedule[1..]);
    }
  }

  lemma StepSameTexts(s: Tty, w: nat)
    requires Enabled(s, w)
    ensures Next(s, w).texts == s.texts && |Next(s, w).pcs| == |s.pcs|
  {
  }
}
