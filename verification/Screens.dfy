/**
 * What the writers' texts look like on the screen: in every run of tty_write and
 * console_write the display is the linear terminal fed with what was shown.
 */
module Screens {
  import opened Fifo
  import opened Tty
  import opened TtyProofs
  import opened TtyLoads
  import opened TtyStops
  import opened Terminal

  /** The screen console_init clears. */
  function Cleared(): Term {
    Term(0, 0, WHITE, BLACK, Normal, seq(PARAMS, _ => 0), 0, seq(CELLS, _ => Cell(SPACE, 15, 0)))
  }

  lemma ClearedOnScreen()
    ensures OnScreen(Cleared())
  {
  }

  function Chars(xs: seq<Item>): (r: seq<Char>)
    ensures |r| == |xs| && forall i :: 0 <= i < |xs| ==> r[i] == xs[i].c
  {
    seq(|xs|, i requires 0 <= i < |xs| => xs[i].c)
  }

  /** One character on the display; beyond the limits the model stops drawing. */
  ghost function Draw(t: Term, c: Char): Term {
    if OnScreen(t) && CharOk(t, c) then Emit(t, c) else t
  }

  /** The display after a run: a task at Show draws its character in the same step. */
  ghost function Screen(s: Tty, t: Term, schedule: seq<nat>): Term
    requires CanRun(s, schedule)
    decreases |schedule|
  {
    if |schedule| == 0 then t
    else
      var w := schedule[0];
      Screen(Next(s, w), if s.pcs[w].Show? then Draw(t, s.pcs[w].item.c) else t, schedule[1..])
  }

  // ---------------------------------------------------------------- feeding in parts

  lemma {:induction false} FeedAppend(t: Term, xs: seq<Char>, ys: seq<Char>)
    requires OnScreen(t) && StreamOk(t, xs + ys)
    ensures StreamOk(t, xs) && OnScreen(Feed(t, xs)) && StreamOk(Feed(t, xs), ys) && Feed(t, xs + ys) == Feed(Feed(t, xs), ys)
    decreases |xs|
  {
    hide Emit, Safe;
    if |xs| == 0 {
      assert xs + ys == ys;
    } else {
      assert (xs + ys)[1..] == xs[1..] + ys && (xs + ys)[0] == xs[0];
      EmitStaysOnScreen(t, xs[0]);
      FeedAppend(Emit(t, xs[0]), xs[1..], ys);
    }
  }

  lemma FeedOne(t: Term, c: Char)
    requires OnScreen(t) && StreamOk(t, [c])
    ensures CharOk(t, c) && Feed(t, [c]) == Draw(t, c)
  {
    hide Emit;
    assert [c][1..] == [];
    EmitStaysOnScreen(t, c);
  }

  lemma FeedNone(t: Term)
    requires OnScreen(t)
    ensures StreamOk(t, []) && Feed(t, []) == t
  {
  }

  // ---------------------------------------------------------------- runs

  /** What a step adds to the characters shown. */
  lemma StepShows(s: Tty, w: nat)
    requires Enabled(s, w)
    ensures Next(s, w).shown == s.shown + if s.pcs[w].Show? then [s.pcs[w].item] else []
  {
    hide SemNotify, SemWait, ConLock, ConUnlock;
    if s.pcs[w].Signal? {
      SemKeeps(s, w, Show(s.pcs[w].item), Show(s.pcs[w].item));
    } else if s.pcs[w] == WaitCr {
      SemKeeps(s, w, PutCr, BlockedCr);
    } else if s.pcs[w] == WaitCh {
      SemKeeps(s, w, PutCh, BlockedCh);
    } else if s.pcs[w] == LockCon || s.pcs[w] == UnlockCon {
      ConKeeps(s, w);
    }
  }

  lemma {:induction false} ShownGrows(s: Tty, schedule: seq<nat>) returns (more: seq<Item>)
    requires CanRun(s, schedule)
    ensures Run(s, schedule).shown == s.shown + more
    decreases |schedule|
  {
    hide Next;
    more := [];
    if |schedule| > 0 {
      StepShows(s, schedule[0]);
      more := ShownGrows(Next(s, schedule[0]), schedule[1..]);
      more := (if s.pcs[schedule[0]].Show? then [s.pcs[schedule[0]].item] else []) + more;
    }
  }

  lemma CharsAppend(xs: seq<Item>, ys: seq<Item>)
    ensures Chars(xs + ys) == Chars(xs) + Chars(ys)
  {
  }

  /** In every run, for what was shown within the limits, the display is the terminal fed with it. */
  lemma {:induction false} ScreenIsFeed(s: Tty, t: Term, schedule: seq<nat>, t0: Term)
    requires CanRun(s, schedule) && OnScreen(t0) && StreamOk(t0, Chars(Run(s, schedule).shown))
    requires StreamOk(t0, Chars(s.shown)) && t == Feed(t0, Chars(s.shown))
    ensures Screen(s, t, schedule) == Feed(t0, Chars(Run(s, schedule).shown))
    decreases |schedule|
  {
    hide Next, OnScreen, StreamOk, Feed, Draw, Chars;
    if |schedule| > 0 {
      var w := schedule[0];
      var s' := Next(s, w);
      StepShows(s, w);
      var more := ShownGrows(s', schedule[1..]);
      CharsAppend(s'.shown, more);
      FeedAppend(t0, Chars(s'.shown), Chars(more));
      if s.pcs[w].Show? {
        DrawNext(s, t, t0, s.pcs[w].item);
        ScreenIsFeed(s', Draw(t, s.pcs[w].item.c), schedule[1..], t0);
      } else {
        assert s'.shown == s.shown;
        ScreenIsFeed(s', t, schedule[1..], t0);
      }
    }
  }

  lemma DrawNext(s: Tty, t: Term, t0: Term, x: Item)
    requires OnScreen(t0) && StreamOk(t0, Chars(s.shown)) && t == Feed(t0, Chars(s.shown)) && StreamOk(t0, Chars(s.shown + [x]))
    ensures Feed(t0, Chars(s.shown + [x])) == Draw(t, x.c)
  {
    hide OnScreen, StreamOk, Feed, Draw;
    CharsAppend(s.shown, [x]);
    assert Chars([x]) == [x.c];
    FeedAppend(t0, Chars(s.shown), [x.c]);
    FeedOne(t, x.c);
  }

  /**
   * A run that cannot go on, unless 512 texts contain a newline: the display is the cleared
   * terminal fed with what was shown, and each writer's part of that is its whole text,
   * for texts that interleave within the limits.
   */
  lemma StoppedRunOnScreen(texts: seq<seq<Char>>, schedule: seq<nat>, w: nat)
    requires Newlines(texts, |texts|) < SIZE && CanRun(Opened(texts), schedule) && Stuck(Run(Opened(texts), schedule)) && w < |texts|
    requires OnScreen(Cleared()) && StreamOk(Cleared(), Chars(Run(Opened(texts), schedule).shown))
    ensures var s := Run(Opened(texts), schedule);
            && Screen(Opened(texts), Cleared(), schedule) == Feed(Cleared(), Chars(s.shown))
            && OnScreen(Feed(Cleared(), Chars(s.shown))) && Of(s.shown, w) == Expand(texts[w])
  {
    hide Run, CanRun, Stuck, Newlines, Of, Expand, OnScreen, StreamOk, Feed, Cleared;
    var s := Opened(texts);
    assert Chars(s.shown) == [];
    FeedNone(Cleared());
    ScreenIsFeed(s, Cleared(), schedule, Cleared());
    FeedStaysOnScreen(Cleared(), Chars(Run(s, schedule).shown));
    StoppedRunIsShown(texts, schedule, w);
  }

  // ---------------------------------------------------------------- texts without escapes

  /** Without ESC no control sequence begins, so every stream is within the limits. */
  lemma {:induction false} PlainStream(t: Term, stream: seq<Char>)
    requires OnScreen(t) && t.mode == Normal && forall i :: 0 <= i < |stream| ==> stream[i] != ESC
    ensures StreamOk(t, stream)
    decreases |stream|
  {
    if |stream| > 0 {
      EmitStaysOnScreen(t, stream[0]);
      PlainStream(Emit(t, stream[0]), stream[1..]);
    }
  }

  ghost predicate PlainItem(texts: seq<seq<Char>>, x: Item) {
    x.c == CR || (x.w < |texts| && x.c in texts[x.w])
  }

  ghost predicate PlainPuts(s: Tty) {
    forall i :: 0 <= i < |s.puts| ==> PlainItem(s.texts, s.puts[i])
  }

  lemma StepPlainPuts(s: Tty, w: nat)
    requires Enabled(s, w) && PlainPuts(s)
    ensures PlainPuts(Next(s, w))
  {
    hide SemNotify, SemWait, ConLock, ConUnlock;
    StepSameTexts(s, w);
    if s.pcs[w].Signal? {
      SemKeeps(s, w, Show(s.pcs[w].item), Show(s.pcs[w].item));
    } else if s.pcs[w] == WaitCr {
      SemKeeps(s, w, PutCr, BlockedCr);
    } else if s.pcs[w] == WaitCh {
      SemKeeps(s, w, PutCh, BlockedCh);
    } else if s.pcs[w] == LockCon || s.pcs[w] == UnlockCon {
      ConKeeps(s, w);
    }
  }

  lemma {:induction false} RunPlainPuts(s: Tty, schedule: seq<nat>)
    requires CanRun(s, schedule) && PlainPuts(s)
    ensures PlainPuts(Run(s, schedule))
    decreases |schedule|
  {
    hide Next, PlainPuts;
    if |schedule| > 0 {
      StepPlainPuts(s, schedule[0]);
      RunPlainPuts(Next(s, schedule[0]), schedule[1..]);
    }
  }

  /** Texts without ESC are within the limits in every interleaving, so for them nothing need be asked of the run. */
  lemma PlainTextsOnScreen(texts: seq<seq<Char>>, schedule: seq<nat>)
    requires Newlines(texts, |texts|) < SIZE && CanRun(Opened(texts), schedule) && Stuck(Run(Opened(texts), schedule))
    requires forall w: nat :: w < |texts| ==> ESC !in texts[w]
    ensures OnScreen(Cleared()) && StreamOk(Cleared(), Chars(Run(Opened(texts), schedule).shown))
    ensures Screen(Opened(texts), Cleared(), schedule) == Feed(Cleared(), Chars(Run(Opened(texts), schedule).shown))
  {
    hide Run, CanRun, Stuck, Newlines, StreamOk, Feed, Screen, Reached;
    var s := Run(Opened(texts), schedule);
    ClearedOnScreen();
    RunPlainPuts(Opened(texts), schedule);
    RunSameTexts(Opened(texts), schedule);
    OpenedReached(texts);
    RunReached(Opened(texts), schedule);
    ShownWerePut(s);
    forall i | 0 <= i < |Chars(s.shown)|
      ensures Chars(s.shown)[i] != ESC
    {
      assert PlainItem(texts, s.puts[i]);
    }
    PlainStream(Cleared(), Chars(s.shown));
    assert Chars(Opened(texts).shown) == [];
    FeedNone(Cleared());
    ScreenIsFeed(Opened(texts), Cleared(), schedule, Cleared());
  }

  lemma ShownWerePut(s: Tty)
    requires Reached(s)
    ensures |s.shown| <= |s.puts| && forall i :: 0 <= i < |s.shown| ==> s.shown[i] == s.puts[i]
  {
    hide Conserved, SemOk, MutexHeld, Pending, Loads, Texts, Spare, Carried;
  }
}
