/**
 * The output pipeline of a terminal (src/kernel/dev/tty/tty.c:85-121 and
 * src/kernel/dev/tty/console.c:348-388): any number of tasks in tty_write, one
 * counting semaphore, one ring buffer, and a drain loop under the console's mutex.
 *
 * Tasks interleave at every point where the source is interruptible. In particular
 * tty_fifo_put and tty_fifo_get test the buffer before they switch interrupts off,
 * so the test and the access are separate steps.
 */
module Tty {
  import opened Options
  import opened Sync
  import opened Fifo

  const SIZE := 512
  const CR: Char := 13
  const NL: Char := 10

  /** A character in flight, with the task that wrote it. */
  datatype Item = Item(w: nat, c: Char)

  /** Where a task is in tty_write and console_write. */
  datatype Pc =
    | Loop                    // head of tty_write's loop
    | WaitCr | BlockedCr      // sem_wait for the extra '\\r'
    | PutCr | FilledCr        // tty_fifo_put of '\\r': before and after its test
    | WaitCh | BlockedCh      // sem_wait for the character itself
    | PutCh | FilledCh
    | LockCon | BlockedCon    // mutex_lock of the console
    | Drain | Pop             // tty_fifo_get: before and after its test
    | Signal(item: Item)      // popped, before sem_notify
    | Show(item: Item)        // before the character reaches the console
    | UnlockCon
    | Gone                    // text written
    | Failed                  // tty_fifo_put failed, tty_write returns early

  /**
   * texts[w] is what task w writes, in one call or several, and pos[w] how far it is.
   * `puts`, `pops` and `shown` record what went into the buffer, came out, and reached
   * the console.
   */
  datatype Tty = Tty(
    sem: Sem, mutex: Mutex, fifo: seq<Item>,
    pcs: seq<Pc>, pos: seq<nat>, texts: seq<seq<Char>>,
    puts: seq<Item>, pops: seq<Item>, shown: seq<Item>)

  /** tty_open, with everyone about to write. */
  function Opened(texts: seq<seq<Char>>): Tty {
    Tty(Sem(SIZE, []), FREE_MUTEX, [], seq(|texts|, _ => Loop), seq(|texts|, _ => 0), texts, [], [], [])
  }

  ghost predicate Shape(s: Tty) {
    |s.pcs| == |s.pos| == |s.texts| && forall w :: 0 <= w < |s.pos| ==> s.pos[w] <= |s.texts[w]|
  }

  /** A task can move unless it is blocked or finished; it needs a character where it reads one. */
  predicate Enabled(s: Tty, w: nat) {
    && w < |s.pcs| == |s.pos| == |s.texts|
    && match s.pcs[w]
       case BlockedCr => false
       case BlockedCh => false
       case BlockedCon => false
       case Gone => false
       case Failed => false
       case FilledCh => s.pos[w] < |s.texts[w]|
       case Pop => |s.fifo| > 0
       case _ => true
  }

  function Goto(s: Tty, w: nat, pc: Pc): Tty
    requires w < |s.pcs|
  {
    s.(pcs := s.pcs[w := pc])
  }

  /** sem_wait(osem). */
  function SemWait(s: Tty, w: nat, got: Pc, blocked: Pc): Tty
    requires w < |s.pcs|
  {
    Goto(s.(sem := CallSem(s.sem, Wait(w))), w, if s.sem.count > 0 then got else blocked)
  }

  /** The permit a notified task wakes up with. */
  function Awakened(pc: Pc): Pc {
    if pc == BlockedCr then PutCr else if pc == BlockedCh then PutCh else pc
  }

  /** sem_notify(osem). */
  function SemNotify(s: Tty, w: nat, next: Pc): Tty
    requires w < |s.pcs|
  {
    var t := Goto(s.(sem := CallSem(s.sem, Notify)), w, next);
    if |s.sem.waiters| > 0 && s.sem.waiters[0] < |s.pcs|
    then Goto(t, s.sem.waiters[0], Awakened(t.pcs[s.sem.waiters[0]])) else t
  }

  function Insert(s: Tty, w: nat, c: Char): Tty {
    s.(fifo := s.fifo + [Item(w, c)], puts := s.puts + [Item(w, c)])
  }

  /** mutex_lock of the console. */
  function ConLock(s: Tty, w: nat): Tty
    requires w < |s.pcs|
  {
    Goto(s.(mutex := LockMutex(s.mutex, w)), w, if s.mutex.count == 0 || s.mutex.owner == Some(w) then Drain else BlockedCon)
  }

  /** mutex_unlock of the console; a waiter that becomes owner goes on to drain. */
  function ConUnlock(s: Tty, w: nat): Tty
    requires w < |s.pcs|
  {
    var t := Goto(s.(mutex := UnlockMutex(s.mutex, w)), w, Loop);
    if s.mutex.owner == Some(w) && s.mutex.count == 1 && |s.mutex.waiters| > 0 && s.mutex.waiters[0] < |s.pcs|
    then Goto(t, s.mutex.waiters[0], Drain) else t
  }

  /** One step of task w. */
  function Next(s: Tty, w: nat): Tty
    requires Enabled(s, w)
  {
    match s.pcs[w]
    case Loop =>
      if s.pos[w] >= |s.texts[w]| then Goto(s, w, Gone)
      else Goto(s, w, if s.texts[w][s.pos[w]] == NL then WaitCr else WaitCh)
    case WaitCr => SemWait(s, w, PutCr, BlockedCr)
    case PutCr => Goto(s, w, if |s.fifo| >= SIZE then Failed else FilledCr)
    case FilledCr => Goto(Insert(s, w, CR), w, WaitCh)
    case WaitCh => SemWait(s, w, PutCh, BlockedCh)
    case PutCh => Goto(s, w, if |s.fifo| >= SIZE then Failed else FilledCh)
    case FilledCh => Goto(Insert(s, w, s.texts[w][s.pos[w]]).(pos := s.pos[w := s.pos[w] + 1]), w, LockCon)
    case LockCon => ConLock(s, w)
    case Drain => Goto(s, w, if |s.fifo| == 0 then UnlockCon else Pop)
    case Pop => Goto(s.(fifo := s.fifo[1..], pops := s.pops + [s.fifo[0]]), w, Signal(s.fifo[0]))
    case Signal(item) => SemNotify(s, w, Show(item))
    case Show(item) => Goto(s.(shown := s.shown + [item]), w, Drain)
    case UnlockCon => ConUnlock(s, w)
    case _ => s
  }

  // ---------------------------------------------------------------- the invariant

  /** Permits a task holds at pc: taken from the semaphore, not yet turned into a character. */
  function Permit(pc: Pc): nat {
    if pc == PutCr || pc == FilledCr || pc == PutCh || pc == FilledCh then 1 else 0
  }

  /** Characters taken out of the buffer and not yet given back to the semaphore. */
  function InHand(pc: Pc): nat {
    if pc.Signal? then 1 else 0
  }

  function SumPcs(pcs: seq<Pc>): nat
    decreases |pcs|
  {
    if |pcs| == 0 then 0 else SumPcs(pcs[..|pcs| - 1]) + Permit(pcs[|pcs| - 1]) + InHand(pcs[|pcs| - 1])
  }

  lemma {:induction false} SumUpdate(pcs: seq<Pc>, w: nat, pc: Pc)
    requires w < |pcs|
    ensures SumPcs(pcs[w := pc]) == SumPcs(pcs) - (Permit(pcs[w]) + InHand(pcs[w])) + (Permit(pc) + InHand(pc))
    decreases |pcs|
  {
    hide Permit, InHand;
    var n := |pcs| - 1;
    if w == n {
      assert pcs[w := pc][..n] == pcs[..n];
    } else {
      assert pcs[w := pc][..n] == pcs[..n][w := pc];
      SumUpdate(pcs[..n], w, pc);
    }
  }

  /** Every place of the buffer is free, promised, filled or on its way out. */
  ghost predicate Conserved(s: Tty) {
    s.sem.count + SumPcs(s.pcs) + |s.fifo| == SIZE
  }

  predicate BlockedOnSem(pc: Pc) {
    pc == BlockedCr || pc == BlockedCh
  }

  /** The semaphore's queue is exactly the tasks blocked on it, and nobody waits while permits remain. */
  ghost predicate SemOk(s: Tty) {
    && NoDup(s.sem.waiters) && s.sem.count >= 0 && (s.sem.count > 0 ==> s.sem.waiters == [])
    && (forall t: nat :: t in s.sem.waiters ==> t < |s.pcs| && BlockedOnSem(s.pcs[t]))
    && (forall t: nat :: t < |s.pcs| && BlockedOnSem(s.pcs[t]) ==> t in s.sem.waiters)
  }

  predicate HoldsConsole(pc: Pc) {
    pc == Drain || pc == Pop || pc.Signal? || pc.Show? || pc == UnlockCon
  }

  /** At most the mutex's owner is in the drain loop, and the mutex's queue is exactly the tasks blocked on it. */
  ghost predicate MutexHeld(s: Tty) {
    && MutexOk(s.mutex) && s.mutex.count <= 1
    && (forall t: nat :: t < |s.pcs| && HoldsConsole(s.pcs[t]) ==> s.mutex.owner == Some(t))
    && (forall t: nat :: s.mutex.owner == Some(t) ==> t < |s.pcs| && HoldsConsole(s.pcs[t]))
    && (forall t: nat :: t in s.mutex.waiters ==> t < |s.pcs| && s.pcs[t] == BlockedCon)
    && (forall t: nat :: t < |s.pcs| && s.pcs[t] == BlockedCon ==> t in s.mutex.waiters)
  }

  /** What a task has popped but not shown. */
  function Between(pc: Pc): seq<Item> {
    match pc
    case Signal(item) => [item]
    case Show(item) => [item]
    case _ => []
  }

  /** The character the console has not seen yet, if the owner carries one. */
  function Carried(s: Tty): seq<Item> {
    if s.mutex.owner.Some? && s.mutex.owner.value < |s.pcs| then Between(s.pcs[s.mutex.owner.value]) else []
  }

  /** Characters leave in the order in which they were put, and are shown in that order. */
  ghost predicate InOrder(s: Tty) {
    s.puts == s.pops + s.fifo && s.pops == s.shown + Carried(s)
  }

  /** The tests made before an access still hold, and no tty_fifo_put ever fails. */
  ghost predicate Pending(s: Tty)
    requires Shape(s)
  {
    && (forall t: nat :: t < |s.pcs| && s.pcs[t] == Pop ==> |s.fifo| > 0)
    && (forall t: nat :: t < |s.pcs| && NeedsChar(s.pcs[t]) ==> s.pos[t] < |s.texts[t]|)
    && (forall t: nat :: t < |s.pcs| ==> s.pcs[t] != Failed)
  }

  predicate NeedsChar(pc: Pc) {
    pc == WaitCr || pc == BlockedCr || pc == PutCr || pc == FilledCr || pc == WaitCh || pc == BlockedCh || pc == PutCh || pc == FilledCh
  }

  ghost predicate Inv(s: Tty) {
    Shape(s) && Conserved(s) && SemOk(s) && MutexHeld(s) && InOrder(s) && Pending(s)
  }

  lemma {:induction false} SumLoop(n: nat)
    ensures SumPcs(seq(n, _ => Loop)) == 0
    decreases n
  {
    if n > 0 {
      assert seq(n, _ => Loop)[..n - 1] == seq(n - 1, _ => Loop);
      SumLoop(n - 1);
    }
  }

  lemma OpenedInv(texts: seq<seq<Char>>)
    ensures Inv(Opened(texts))
  {
    SumLoop(|texts|);
  }
}
