/**
 * When the writers can block each other for good: exactly when 512 of the texts contain
 * a newline. That many tasks can fill the buffer with carriage returns and then all wait
 * for room for the newline itself, with nobody left to drain.
 */
module TtyDeadlock {
  import opened Options
  import opened Sync
  import opened Fifo
  import opened Tty
  import opened TtyProofs
  import opened TtyStops

  // ---------------------------------------------------------------- reachable states

  ghost predicate Reaches(s: Tty, t: Tty) {
    exists schedule :: CanRun(s, schedule) && Run(s, schedule) == t
  }

  lemma {:induction false} RunJoin(s: Tty, xs: seq<nat>, ys: seq<nat>)
    requires CanRun(s, xs) && CanRun(Run(s, xs), ys)
    ensures CanRun(s, xs + ys) && Run(s, xs + ys) == Run(Run(s, xs), ys)
    decreases |xs|
  {
    hide Next, Enabled;
    if |xs| == 0 {
      assert xs + ys == ys;
    } else {
      assert (xs + ys)[1..] == xs[1..] + ys;
      RunJoin(Next(s, xs[0]), xs[1..], ys);
    }
  }

  lemma Then(s: Tty, t: Tty, u: Tty)
    requires Reaches(s, t) && Reaches(t, u)
    ensures Reaches(s, u)
  {
    hide Run, CanRun;
    var xs :| CanRun(s, xs) && Run(s, xs) == t;
    var ys :| CanRun(t, ys) && Run(t, ys) == u;
    RunJoin(s, xs, ys);
    assert CanRun(s, xs + ys);
  }

  lemma Here(s: Tty)
    ensures Reaches(s, s)
  {
    assert CanRun(s, []) && Run(s, []) == s;
  }

  /** One more step of w. */
  lemma Move(s: Tty, t: Tty, w: nat)
    requires Reaches(s, t) && Enabled(t, w)
    ensures Reaches(s, Next(t, w))
  {
    hide Next, Enabled;
    assert CanRun(t, [w]) && Run(t, [w]) == Next(t, w) by {
      assert [w][1..] == [];
      assert CanRun(Next(t, w), []);
    }
    Then(s, t, Next(t, w));
  }

  // ---------------------------------------------------------------- one character, alone

  /** Nobody is doing anything. */
  ghost predicate Calm(s: Tty, texts: seq<seq<Char>>) {
    && s.sem == Sem(SIZE, []) && s.mutex == FREE_MUTEX && s.fifo == [] && s.texts == texts && |s.pcs| == |s.pos| == |texts|
    && forall w: nat :: w < |texts| ==> s.pcs[w] == Loop && s.pos[w] <= |texts[w]|
  }

  /** Writer w has put x, which is now in the buffer. */
  function WithChar(s: Tty, w: nat, x: Item): Tty
    requires w < |s.pcs| && w < |s.pos|
  {
    s.(sem := Sem(SIZE - 1, []), fifo := [x], pcs := s.pcs[w := LockCon], pos := s.pos[w := s.pos[w] + 1], puts := s.puts + [x])
  }

  /** The character has been shown, and everything else is as it was. */
  function AfterChar(s: Tty, w: nat, x: Item): Tty
    requires w < |s.pos|
  {
    s.(pos := s.pos[w := s.pos[w] + 1], puts := s.puts + [x], pops := s.pops + [x], shown := s.shown + [x])
  }

  lemma PutAlone(s: Tty, texts: seq<seq<Char>>, w: nat)
    requires Calm(s, texts) && w < |texts| && s.pos[w] < |texts[w]| && texts[w][s.pos[w]] != NL
    ensures Reaches(s, WithChar(s, w, Item(w, texts[w][s.pos[w]])))
  {
    hide Reaches;
    Here(s);
    var s1 := Goto(s, w, WaitCh);
    var s2 := Goto(s.(sem := Sem(SIZE - 1, [])), w, PutCh);
    var s3 := Goto(s2, w, FilledCh);
    assert Next(s, w) == s1;
    Move(s, s, w);
    assert Next(s1, w) == s2 by {
      assert s1.pcs[w := PutCh] == s2.pcs;
    }
    Move(s, s1, w);
    assert Next(s2, w) == s3;
    Move(s, s2, w);
    var x := Item(w, texts[w][s.pos[w]]);
    assert Next(s3, w) == WithChar(s, w, x) by {
      assert s3.fifo + [x] == [x] && s3.pcs[w := LockCon] == s.pcs[w := LockCon];
    }
    Move(s, s3, w);
  }

  lemma ShowAlone(s: Tty, texts: seq<seq<Char>>, w: nat, x: Item)
    requires Calm(s, texts) && w < |texts|
    ensures Reaches(WithChar(s, w, x), AfterChar(s, w, x))
  {
    hide Reaches;
    var t := WithChar(s, w, x);
    var held := t.(mutex := Mutex(Some(w), 1, []));
    var s1 := held.(pcs := s.pcs[w := Drain]);
    var s2 := held.(pcs := s.pcs[w := Pop]);
    var popped := held.(fifo := [], pops := s.pops + [x]);
    var s3 := popped.(pcs := s.pcs[w := Signal(x)]);
    Here(t);
    assert Next(t, w) == s1 by {
      assert t.pcs[w := Drain] == s.pcs[w := Drain];
    }
    Move(t, t, w);
    assert Next(s1, w) == s2 by {
      assert s1.pcs[w := Pop] == s.pcs[w := Pop];
    }
    Move(t, s1, w);
    assert Next(s2, w) == s3 by {
      assert s2.pcs[w := Signal(x)] == s.pcs[w := Signal(x)] && [x][1..] == [];
    }
    Move(t, s2, w);
    FinishAlone(s, texts, w, x, t, s3);
  }

  lemma FinishAlone(s: Tty, texts: seq<seq<Char>>, w: nat, x: Item, t: Tty, s3: Tty)
    requires Calm(s, texts) && w < |texts| && t == WithChar(s, w, x) && Reaches(t, s3)
    requires s3 == t.(mutex := Mutex(Some(w), 1, []), fifo := [], pops := s.pops + [x], pcs := s.pcs[w := Signal(x)])
    ensures Reaches(t, AfterChar(s, w, x))
  {
    hide Reaches;
    var s4 := s3.(sem := Sem(SIZE, []), pcs := s.pcs[w := Show(x)]);
    var s5 := s4.(shown := s.shown + [x], pcs := s.pcs[w := Drain]);
    var s6 := s5.(pcs := s.pcs[w := UnlockCon]);
    assert Next(s3, w) == s4 by {
      assert s3.pcs[w := Show(x)] == s4.pcs;
    }
    Move(t, s3, w);
    assert Next(s4, w) == s5 by {
      assert s4.pcs[w := Drain] == s5.pcs;
    }
    Move(t, s4, w);
    assert Next(s5, w) == s6 by {
      assert s5.pcs[w := UnlockCon] == s6.pcs;
    }
    Move(t, s5, w);
    assert Next(s6, w) == AfterChar(s, w, x) by {
      assert s6.pcs[w := Loop] == s.pcs;
    }
    Move(t, s6, w);
  }

  // ---------------------------------------------------------------- up to the newlines

  ghost predicate AtNewline(s: Tty, w: nat) {
    w < |s.pos| && w < |s.texts| && s.pos[w] < |s.texts[w]| && s.texts[w][s.pos[w]] == NL
  }

  /** Writer w alone gets to a newline at or after its position; the others stay where they are. */
  lemma {:induction false} ToNewline(s: Tty, texts: seq<seq<Char>>, w: nat, j: nat) returns (t: Tty)
    requires Calm(s, texts) && w < |texts| && s.pos[w] <= j < |texts[w]| && texts[w][j] == NL
    ensures Reaches(s, t) && Calm(t, texts) && AtNewline(t, w) && forall u: nat :: u < |texts| && u != w ==> t.pos[u] == s.pos[u]
    decreases j - s.pos[w]
  {
    hide Reaches;
    if AtNewline(s, w) {
      t := s;
      Here(s);
    } else {
      var x := Item(w, texts[w][s.pos[w]]);
      var u := AfterChar(s, w, x);
      PutAlone(s, texts, w);
      ShowAlone(s, texts, w, x);
      Then(s, WithChar(s, w, x), u);
      t := ToNewline(u, texts, w, j);
      Then(s, u, t);
    }
  }

  /** The first k of the chosen writers get to a newline. */
  lemma {:induction false} Prepare(texts: seq<seq<Char>>, chosen: seq<nat>, k: nat) returns (t: Tty)
    requires k <= |chosen| && forall i :: 0 <= i < |chosen| ==> chosen[i] < |texts| && NL in texts[chosen[i]]
    requires forall i, j :: 0 <= i < j < |chosen| ==> chosen[i] != chosen[j]
    ensures Reaches(Opened(texts), t) && Calm(t, texts)
    ensures forall i :: 0 <= i < k ==> AtNewline(t, chosen[i])
    ensures forall i :: k <= i < |chosen| ==> t.pos[chosen[i]] == 0
    decreases k
  {
    hide Reaches;
    if k == 0 {
      t := Opened(texts);
      Here(t);
    } else {
      var s := Prepare(texts, chosen, k - 1);
      var w := chosen[k - 1];
      var j :| 0 <= j < |texts[w]| && texts[w][j] == NL;
      t := ToNewline(s, texts, w, j);
      Then(Opened(texts), s, t);
    }
  }

  // ---------------------------------------------------------------- filling the buffer

  /** The first k chosen writers have put their carriage return. */
  ghost predicate Filling(s: Tty, texts: seq<seq<Char>>, chosen: seq<nat>, k: nat) {
    && s.sem == Sem(SIZE - k, []) && s.mutex == FREE_MUTEX && |s.fifo| == k && s.texts == texts && |s.pcs| == |s.pos| == |texts|
    && (forall i :: 0 <= i < |chosen| ==> chosen[i] < |texts| && AtNewline(s, chosen[i]))
    && (forall i :: 0 <= i < |chosen| && i < k ==> s.pcs[chosen[i]] == WaitCh)
    && (forall i :: 0 <= i < |chosen| && k <= i ==> s.pcs[chosen[i]] == Loop)
    && (forall w: nat :: w < |texts| && w !in chosen ==> s.pcs[w] == Loop)
  }

  ghost predicate Apart(chosen: seq<nat>) {
    forall i, j :: 0 <= i < j < |chosen| ==> chosen[i] != chosen[j]
  }

  /** Four steps: the writer finds the newline, takes a permit, finds room and puts the carriage return. */
  lemma FillOne(s: Tty, texts: seq<seq<Char>>, chosen: seq<nat>, k: nat) returns (t: Tty)
    requires Filling(s, texts, chosen, k) && Apart(chosen) && k < |chosen| <= SIZE
    ensures Reaches(s, t) && Filling(t, texts, chosen, k + 1)
  {
    hide Reaches;
    var w := chosen[k];
    assert w in chosen && AtNewline(s, w);
    var s1 := Goto(s, w, WaitCr);
    var s2 := Goto(s1.(sem := Sem(SIZE - k - 1, [])), w, PutCr);
    var s3 := Goto(s2, w, FilledCr);
    t := Goto(Insert(s3, w, CR), w, WaitCh);
    Here(s);
    assert Next(s, w) == s1;
    Move(s, s, w);
    assert Next(s1, w) == s2;
    Move(s, s1, w);
    assert Next(s2, w) == s3;
    Move(s, s2, w);
    assert Next(s3, w) == t;
    Move(s, s3, w);
  }

  lemma {:induction false} Fill(s: Tty, texts: seq<seq<Char>>, chosen: seq<nat>, k: nat) returns (t: Tty)
    requires Filling(s, texts, chosen, 0) && Apart(chosen) && k <= |chosen| <= SIZE
    ensures Reaches(s, t) && Filling(t, texts, chosen, k)
    decreases k
  {
    hide Reaches, Filling, Apart;
    if k == 0 {
      t := s;
      Here(s);
    } else {
      var u := Fill(s, texts, chosen, k - 1);
      t := FillOne(u, texts, chosen, k - 1);
      Then(s, u, t);
    }
  }

  // ---------------------------------------------------------------- everybody comes to rest

  /** Waiting for a place, or done. */
  predicate AtRest(pc: Pc) {
    pc == BlockedCr || pc == BlockedCh || pc == Gone
  }

  /** No permit is left, and the first n writers are at rest; the others are at most about to wait. */
  ghost predicate Resting(s: Tty, n: nat) {
    && s.sem.count == 0 && |s.pcs| == |s.pos| == |s.texts|
    && (forall w: nat :: w < |s.pcs| && w < n ==> AtRest(s.pcs[w]))
    && (forall w: nat :: n <= w < |s.pcs| ==> s.pcs[w] == Loop || s.pcs[w] == WaitCh)
  }

  lemma RestOne(s: Tty, n: nat) returns (t: Tty)
    requires Resting(s, n) && n < |s.pcs|
    ensures Reaches(s, t) && Resting(t, n + 1) && |t.pcs| == |s.pcs| && forall w: nat :: w < |s.pcs| && w != n ==> t.pcs[w] == s.pcs[w]
    ensures s.pcs[n] == WaitCh ==> t.pcs[n] == BlockedCh
  {
    hide Reaches;
    Here(s);
    var s1 := Next(s, n);
    Move(s, s, n);
    if AtRest(s1.pcs[n]) {
      t := s1;
    } else {
      t := Next(s1, n);
      Move(s, s1, n);
    }
  }

  lemma {:induction false} Rest(s: Tty, n: nat) returns (t: Tty)
    requires Resting(s, 0) && n <= |s.pcs|
    ensures Reaches(s, t) && Resting(t, n) && |t.pcs| == |s.pcs|
    ensures forall w: nat :: n <= w < |s.pcs| ==> t.pcs[w] == s.pcs[w]
    ensures forall w: nat :: w < n && s.pcs[w] == WaitCh ==> t.pcs[w] == BlockedCh
    decreases n
  {
    hide Reaches, Resting;
    if n == 0 {
      t := s;
      Here(s);
    } else {
      var u := Rest(s, n - 1);
      t := RestOne(u, n - 1);
      Then(s, u, t);
    }
  }

  // ---------------------------------------------------------------- the theorem

  /** The writers whose text contains a newline, among the first n. */
  function Chosen(texts: seq<seq<Char>>, n: nat): (r: seq<nat>)
    requires n <= |texts|
    ensures |r| == Newlines(texts, n) && forall i :: 0 <= i < |r| ==> r[i] < n && NL in texts[r[i]]
    ensures forall i, j :: 0 <= i < j < |r| ==> r[i] < r[j]
  {
    if n == 0 then [] else Chosen(texts, n - 1) + if NL in texts[n - 1] then [n - 1] else []
  }

  /** Nobody can move, and w is not done. */
  ghost predicate Deadlocked(s: Tty, w: nat) {
    Stuck(s) && w < |s.pcs| && s.pcs[w] != Gone
  }

  /** 512 different writers whose texts contain a newline. */
  lemma Choose(texts: seq<seq<Char>>) returns (chosen: seq<nat>)
    requires Newlines(texts, |texts|) >= SIZE
    ensures |chosen| == SIZE && Apart(chosen) && forall i :: 0 <= i < |chosen| ==> chosen[i] < |texts| && NL in texts[chosen[i]]
  {
    chosen := Chosen(texts, |texts|)[..SIZE];
  }

  lemma RestIsStuck(s: Tty)
    requires Resting(s, |s.pcs|)
    ensures Stuck(s)
  {
  }

  lemma WritersDeadlock(texts: seq<seq<Char>>) returns (s: Tty, w: nat)
    requires Newlines(texts, |texts|) >= SIZE
    ensures Reaches(Opened(texts), s) && Deadlocked(s, w)
  {
    hide Reaches, Calm, Filling, Resting, Stuck, Newlines, AtNewline;
    var chosen := Choose(texts);
    w := chosen[0];
    var s1 := Prepare(texts, chosen, SIZE);
    CalmFilling(s1, texts, chosen);
    var s2 := Fill(s1, texts, chosen, SIZE);
    FilledRests(s2, texts, chosen);
    s := Rest(s2, |texts|);
    RestIsStuck(s);
    Then(Opened(texts), s1, s2);
    Then(Opened(texts), s2, s);
  }

  lemma CalmFilling(s: Tty, texts: seq<seq<Char>>, chosen: seq<nat>)
    requires Calm(s, texts) && forall i :: 0 <= i < |chosen| ==> chosen[i] < |texts| && AtNewline(s, chosen[i])
    ensures Filling(s, texts, chosen, 0)
  {
  }

  lemma FilledRests(s: Tty, texts: seq<seq<Char>>, chosen: seq<nat>)
    requires Filling(s, texts, chosen, SIZE) && |chosen| == SIZE
    ensures Resting(s, 0) && |s.pcs| == |texts| && chosen[0] < |texts| && s.pcs[chosen[0]] == WaitCh
  {
    forall w: nat | w < |s.pcs|
      ensures s.pcs[w] == Loop || s.pcs[w] == WaitCh
    {
      if w in chosen {
        var i :| 0 <= i < |chosen| && chosen[i] == w;
        assert s.pcs[chosen[i]] == WaitCh;
      }
    }
  }

  /** Some run ends with nobody able to move and somebody not done. */
  ghost predicate CanDeadlock(texts: seq<seq<Char>>) {
    exists schedule, w: nat :: CanRun(Opened(texts), schedule) && Deadlocked(Run(Opened(texts), schedule), w)
  }

  /** Deadlock is possible if and only if at least 512 of the texts contain a newline. */
  lemma DeadlockIff(texts: seq<seq<Char>>)
    ensures CanDeadlock(texts) <==> Newlines(texts, |texts|) >= SIZE
  {
    hide Run, CanRun, Newlines, Stuck;
    if Newlines(texts, |texts|) >= SIZE {
      var s, w := WritersDeadlock(texts);
      var schedule :| CanRun(Opened(texts), schedule) && Run(Opened(texts), schedule) == s;
      assert Deadlocked(Run(Opened(texts), schedule), w);
    } else {
      forall schedule, w: nat | CanRun(Opened(texts), schedule)
        ensures !Deadlocked(Run(Opened(texts), schedule), w)
      {
        if Stuck(Run(Opened(texts), schedule)) {
          RunDone(texts, schedule, w);
        }
      }
    }
  }

  lemma {:induction false} AllNewlines(n: nat, k: nat)
    requires k <= n
    ensures Newlines(seq(n, _ => [NL]), k) == k
    decreases k
  {
    if k > 0 {
      AllNewlines(n, k - 1);
    }
  }

  /** For example, 512 writers of one newline each. */
  lemma NewlinesDeadlock()
    ensures CanDeadlock(seq(SIZE, _ => [NL]))
  {
    hide CanDeadlock;
    AllNewlines(SIZE, SIZE);
    DeadlockIff(seq(SIZE, _ => [NL]));
  }
}
