/**
 * What the display does with the characters it is sent, said outright: control characters,
 * and whole control sequences from ESC to their final character
 * (src/kernel/dev/tty/console.c:163-346).
 */
module Sequences {
  import opened Fifo
  import opened Terminal

  // ---------------------------------------------------------------- feeding in parts

  /** Fed the characters of the stream, all within the limits, terminal t becomes u. */
  ghost predicate Leads(t: Term, stream: seq<Char>, u: Term) {
    OnScreen(t) && StreamOk(t, stream) && Feed(t, stream) == u && OnScreen(u)
  }

  lemma LeadsOne(t: Term, c: Char)
    requires OnScreen(t) && CharOk(t, c)
    ensures Leads(t, [c], Emit(t, c))
  {
    hide Emit, Safe;
    EmitStaysOnScreen(t, c);
    assert [c][1..] == [];
    assert StreamOk(Emit(t, c), []) && Feed(Emit(t, c), []) == Emit(t, c);
  }

  lemma {:induction false} LeadsThen(t: Term, xs: seq<Char>, u: Term, ys: seq<Char>, v: Term)
    requires Leads(t, xs, u) && Leads(u, ys, v)
    ensures Leads(t, xs + ys, v)
    decreases |xs|
  {
    hide Emit, Safe;
    if |xs| == 0 {
      assert xs + ys == ys;
    } else {
      assert (xs + ys)[1..] == xs[1..] + ys && (xs + ys)[0] == xs[0];
      EmitStaysOnScreen(t, xs[0]);
      LeadsThen(Emit(t, xs[0]), xs[1..], u, ys, v);
    }
  }

  /** The same cells, colours and saved cursor, and no sequence under way. */
  ghost predicate OnlyMoved(t: Term, u: Term) {
    u.cells == t.cells && u.fg == t.fg && u.bg == t.bg && u.saved == t.saved && u.mode == Normal
  }

  // ---------------------------------------------------------------- control characters

  /** A newline: column 0 of the next row; on the last row every line moves up and a blank one appears. */
  lemma NewlineFacts(t: Term)
    requires OnScreen(t) && t.mode == Normal
    ensures var u := Emit(t, 10);
            && u.fg == t.fg && u.bg == t.bg && u.saved == t.saved && u.mode == Normal
            && if t.pos / 80 < 24
               then u.pos == (t.pos / 80 + 1) * 80 && u.cells == t.cells
               else u.pos == 24 * 80 && u.cells == t.cells[80..] + seq(80, _ => Cell(32, t.fg % 16, t.bg % 8))
  {
    assert Blanks(t, COLS) == seq(80, _ => Cell(32, t.fg % 16, t.bg % 8));
  }

  /** A printable character: in the cell at the cursor, which moves on; on the last cell every line moves up afterwards. */
  lemma PrintableFacts(t: Term, c: Char)
    requires OnScreen(t) && t.mode == Normal && 32 <= c <= 126
    ensures var u, inked := Emit(t, c), t.cells[t.pos := Cell(c, t.fg % 16, t.bg % 8)];
            && u.fg == t.fg && u.bg == t.bg && u.saved == t.saved && u.mode == Normal
            && if t.pos < 1999
               then u.pos == t.pos + 1 && u.cells == inked
               else u.pos == 24 * 80 && u.cells == inked[80..] + seq(80, _ => Cell(32, t.fg % 16, t.bg % 8))
  {
    assert Blanks(t, COLS) == seq(80, _ => Cell(32, t.fg % 16, t.bg % 8));
  }

  /** Carriage return, backspace, delete, and what is neither printable nor one of these. */
  lemma ControlFacts(t: Term, c: Char)
    requires OnScreen(t) && t.mode == Normal && !(32 <= c <= 126) && c != 10 && c != 27
    ensures var u := Emit(t, c);
            && (c == 13 ==> OnlyMoved(t, u) && u.pos == t.pos / 80 * 80)
            && (c == 8 ==> OnlyMoved(t, u) && u.pos == if t.pos > 0 then t.pos - 1 else 0)
            && (c == 127 ==> OnlyMoved(t.(cells := u.cells), u) && u.pos == if t.pos > 0 then t.pos - 1 else 0)
            && (c == 127 ==> u.cells == if t.pos > 0 then t.cells[t.pos - 1 := Cell(32, t.fg % 16, t.bg % 8)] else t.cells)
            && (c != 13 && c != 8 && c != 127 ==> u == t)
  {
  }

  /** ESC 7 saves the cursor, ESC 8 goes to the saved one, ESC and any other character but [ does nothing. */
  lemma EscapeFacts(t: Term, c: Char)
    requires OnScreen(t) && t.mode == Normal && c != 91
    ensures Leads(t, [27, c], if c == 55 then t.(saved := t.pos) else if c == 56 then t.(pos := t.saved) else t)
  {
    LeadsOne(t, 27);
    LeadsOne(Emit(t, 27), c);
    LeadsThen(t, [27], Emit(t, 27), [c], Emit(Emit(t, 27), c));
    assert [27] + [c] == [27, c];
  }

  lemma {:induction false} PlainKeepsSaved(t: Term, text: seq<Char>) returns (u: Term)
    requires OnScreen(t) && t.mode == Normal && 27 !in text
    ensures Leads(t, text, u) && u.saved == t.saved && u.mode == Normal
    decreases |text|
  {
    hide Safe;
    if |text| == 0 {
      assert StreamOk(t, []);
      return t;
    }
    LeadsOne(t, text[0]);
    var v := Emit(t, text[0]);
    u := PlainKeepsSaved(v, text[1..]);
    LeadsThen(t, [text[0]], v, text[1..], u);
    assert [text[0]] + text[1..] == text;
  }

  /** Saving, any text without ESC, and restoring: the cursor is back where it was. */
  lemma RestoreReturns(t: Term, text: seq<Char>) returns (u: Term)
    requires OnScreen(t) && t.mode == Normal && 27 !in text
    ensures Leads(t, [27, 55] + text + [27, 56], u) && u.pos == t.pos && u.mode == Normal
  {
    hide Leads;
    EscapeFacts(t, 55);
    var v := t.(saved := t.pos);
    var w := PlainKeepsSaved(v, text);
    LeadsThen(t, [27, 55], v, text, w);
    LeadsOnScreen(t, [27, 55] + text, w);
    EscapeFacts(w, 56);
    u := w.(pos := w.saved);
    LeadsThen(t, [27, 55] + text, w, [27, 56], u);
  }

  lemma LeadsOnScreen(t: Term, stream: seq<Char>, u: Term)
    requires Leads(t, stream, u)
    ensures OnScreen(u)
  {
  }

  // ---------------------------------------------------------------- parameters

  /** A text of decimal digits, possibly empty. */
  predicate Digits(ds: seq<Char>) {
    forall i :: 0 <= i < |ds| ==> 48 <= ds[i] <= 57
  }

  /** The number that the digits write, 0 for none. */
  function Value(ds: seq<Char>): nat
    requires Digits(ds)
    decreases |ds|
  {
    if |ds| == 0 then 0 else Value(ds[..|ds| - 1]) * 10 + (ds[|ds| - 1] - 48)
  }

  /** One to ten parameters, each below 2^31: what fits esc_param. */
  ghost predicate Params(ps: seq<seq<Char>>) {
    1 <= |ps| <= 10 && forall i :: 0 <= i < |ps| ==> Digits(ps[i]) && Value(ps[i]) < 0x8000_0000
  }

  /** The parameters with a `;` between them. */
  function Join(ps: seq<seq<Char>>): seq<Char>
    requires |ps| > 0
    decreases |ps|
  {
    if |ps| == 1 then ps[0] else Join(ps[..|ps| - 1]) + [59] + ps[|ps| - 1]
  }

  /** ESC [, the parameters, and the final character. */
  function Sequence(ps: seq<seq<Char>>, c: Char): seq<Char>
    requires |ps| > 0
  {
    [27, 91] + Join(ps) + [c]
  }

  /** esc_param after the parameters are read. */
  ghost function Read(ps: seq<seq<Char>>): (r: seq<int>)
    requires Params(ps)
    ensures |r| == 10
  {
    seq(10, i requires 0 <= i < 10 => if i < |ps| then Value(ps[i]) else 0)
  }

  lemma {:induction false} DigitsRead(t: Term, ds: seq<Char>)
    requires OnScreen(t) && t.mode == Square && t.idx < 10 && t.params[t.idx] == 0 && Digits(ds) && Value(ds) < INT_END
    ensures Leads(t, ds, t.(params := t.params[t.idx := Value(ds)]))
    decreases |ds|
  {
    hide Feed, StreamOk;
    var n := |ds|;
    if n == 0 {
      LeadsNone(t);
      assert t.params[t.idx := 0] == t.params;
    } else {
      var x, xs := ds[n - 1], ds[..n - 1];
      DigitsRead(t, xs);
      var u := t.(params := t.params[t.idx := Value(xs)]);
      LeadsOne(u, x);
      assert Emit(u, x) == t.(params := t.params[t.idx := Value(ds)]);
      LeadsThen(t, xs, u, [x], Emit(u, x));
      assert xs + [x] == ds;
    }
  }

  lemma LeadsNone(t: Term)
    requires OnScreen(t)
    ensures Leads(t, [], t)
  {
  }

  /** ESC [ and the parameters: each is read into its place, the rest are 0. */
  lemma {:induction false} ParamsRead(t: Term, ps: seq<seq<Char>>)
    requires OnScreen(t) && t.mode == Normal && Params(ps)
    ensures Leads(t, [27, 91] + Join(ps), t.(mode := Square, params := Read(ps), idx := |ps| - 1))
    decreases |ps|
  {
    hide Leads;
    var n := |ps| - 1;
    if n == 0 {
      Begins(t);
      var u := t.(mode := Square, params := seq(10, _ => 0), idx := 0);
      DigitsRead(u, ps[0]);
      assert u.params[0 := Value(ps[0])] == Read(ps);
      LeadsThen(t, [27, 91], u, ps[0], t.(mode := Square, params := Read(ps), idx := 0));
    } else {
      var qs := ps[..n];
      assert Params(qs);
      ParamsRead(t, qs);
      var u := t.(mode := Square, params := Read(qs), idx := n - 1);
      Separates(u);
      LeadsThen(t, [27, 91] + Join(qs), u, [59], u.(idx := n));
      DigitsRead(u.(idx := n), ps[n]);
      assert Read(qs)[n := Value(ps[n])] == Read(ps);
      LeadsThen(t, [27, 91] + Join(qs) + [59], u.(idx := n), ps[n], t.(mode := Square, params := Read(ps), idx := n));
      assert [27, 91] + Join(qs) + [59] + ps[n] == [27, 91] + Join(ps);
    }
  }

  lemma Begins(t: Term)
    requires OnScreen(t) && t.mode == Normal
    ensures Leads(t, [27, 91], t.(mode := Square, params := seq(10, _ => 0), idx := 0))
  {
    LeadsOne(t, 27);
    LeadsOne(Emit(t, 27), 91);
    LeadsThen(t, [27], Emit(t, 27), [91], Emit(Emit(t, 27), 91));
    assert [27] + [91] == [27, 91];
    assert Emit(Emit(t, 27), 91).params == seq(10, _ => 0);
  }

  lemma Separates(t: Term)
    requires OnScreen(t) && t.mode == Square && t.idx < 10
    ensures Leads(t, [59], t.(idx := t.idx + 1))
  {
    LeadsOne(t, 59);
  }

  // ---------------------------------------------------------------- control sequences

  /**
   * What the final character asks of the parameters: C keeps an int from overflowing, H and
   * f name a position on the screen. A digit or a `;` is no final character.
   */
  ghost predicate FinalOk(t: Term, ps: seq<seq<Char>>, c: Char)
    requires Params(ps)
  {
    && !(48 <= c <= 57) && c != 59
    && (c == 67 ==> t.pos % 80 + Value(ps[0]) < 0x8000_0000)
    && (c == 72 || c == 102 ==> Value(ps[0]) < 25 && (|ps| > 1 ==> Value(ps[1]) < 80))
  }

  /** The terminal with all its parameters read. */
  ghost function Ready(t: Term, ps: seq<seq<Char>>): Term
    requires Params(ps)
  {
    t.(mode := Square, params := Read(ps), idx := |ps| - 1)
  }

  lemma SequenceFed(t: Term, ps: seq<seq<Char>>, c: Char)
    requires OnScreen(t) && t.mode == Normal && Params(ps) && FinalOk(t, ps, c)
    ensures var q := Ready(t, ps);
            OnScreen(q) && CharOk(q, c) && Leads(t, Sequence(ps, c), Emit(q, c))
  {
    hide Feed, StreamOk, Finish, Value, Join;
    ParamsRead(t, ps);
    LeadsOne(Ready(t, ps), c);
    LeadsThen(t, [27, 91] + Join(ps), Ready(t, ps), [c], Emit(Ready(t, ps), c));
  }

  /** ESC [ n D and ESC [ n C: n columns to the left or right in the same row, one for n = 0, stopping at the margins. */
  lemma ColumnMoves(t: Term, ps: seq<seq<Char>>, c: Char) returns (u: Term)
    requires OnScreen(t) && t.mode == Normal && Params(ps) && (c == 68 || c == 67) && FinalOk(t, ps, c)
    ensures Leads(t, Sequence(ps, c), u) && OnlyMoved(t, u) && u.pos / 80 == t.pos / 80
    ensures var col, n := t.pos % 80, if Value(ps[0]) == 0 then 1 else Value(ps[0]);
            u.pos % 80 == if c == 68 then (if n <= col then col - n else 0) else if col + n <= 79 then col + n else 79
  {
    hide Leads, Join, Value;
    SequenceFed(t, ps, c);
    u := Emit(Ready(t, ps), c);
    assert u.params == Read(ps);
  }

  /** ESC [ r ; c H and f: that row, and that column if it is given, both counted from 0. */
  lemma CursorPlaced(t: Term, ps: seq<seq<Char>>, c: Char) returns (u: Term)
    requires OnScreen(t) && t.mode == Normal && Params(ps) && (c == 72 || c == 102) && FinalOk(t, ps, c)
    ensures Leads(t, Sequence(ps, c), u) && OnlyMoved(t, u)
    ensures u.pos / 80 == Value(ps[0]) && u.pos % 80 == if |ps| > 1 then Value(ps[1]) else t.pos % 80
  {
    hide Leads, Join, Value;
    SequenceFed(t, ps, c);
    u := Emit(Ready(t, ps), c);
    assert u.params == Read(ps);
  }

  /** ESC [ 2 J blanks the screen in the current colours and homes the cursor; with any other first parameter nothing changes. */
  lemma ScreenErased(t: Term, ps: seq<seq<Char>>) returns (u: Term)
    requires OnScreen(t) && t.mode == Normal && Params(ps)
    ensures Leads(t, Sequence(ps, 74), u)
    ensures if Value(ps[0]) == 2
            then u.pos == 0 && |u.cells| == 2000 && (forall i :: 0 <= i < 2000 ==> u.cells[i] == Cell(32, t.fg % 16, t.bg % 8))
                 && u.fg == t.fg && u.bg == t.bg && u.saved == t.saved && u.mode == Normal
            else OnlyMoved(t, u) && u.pos == t.pos
  {
    hide Leads, Join, Value;
    SequenceFed(t, ps, 74);
    u := Emit(Ready(t, ps), 74);
  }

  /** Any other final character, but the m of the colours, only ends the sequence. */
  lemma OthersIgnored(t: Term, ps: seq<seq<Char>>, c: Char) returns (u: Term)
    requires OnScreen(t) && t.mode == Normal && Params(ps) && !(48 <= c <= 57) && c !in {59, 109, 68, 67, 72, 102, 74}
    ensures Leads(t, Sequence(ps, c), u) && OnlyMoved(t, u) && u.pos == t.pos
  {
    hide Leads, Join, Value;
    SequenceFed(t, ps, c);
    u := Emit(Ready(t, ps), c);
  }

  // ---------------------------------------------------------------- colours

  predicate SetsForeground(p: nat) {
    30 <= p <= 37 || p == 39
  }

  predicate SetsBackground(p: nat) {
    40 <= p <= 47 || p == 49
  }

  /** The colour in the display's own numbers: black, red, green, yellow, blue, magenta, cyan, white. */
  function DisplayColour(k: nat): nat {
    match k
    case 0 => 0
    case 1 => 4
    case 2 => 2
    case 3 => 14
    case 4 => 1
    case 5 => 5
    case 6 => 3
    case _ => 15
  }

  /** Parameter i is the last of the first n that sets the foreground. */
  ghost predicate LastForeground(ps: seq<seq<Char>>, i: nat, n: nat)
    requires Params(ps) && n <= |ps|
  {
    i < n && SetsForeground(Value(ps[i])) && forall j :: i < j < n ==> !SetsForeground(Value(ps[j]))
  }

  ghost predicate LastBackground(ps: seq<seq<Char>>, i: nat, n: nat)
    requires Params(ps) && n <= |ps|
  {
    i < n && SetsBackground(Value(ps[i])) && forall j :: i < j < n ==> !SetsBackground(Value(ps[j]))
  }

  /** fg is the foreground that the first n parameters leave: the last that sets it decides, and 39 is white. */
  ghost predicate Foreground(before: nat, fg: nat, ps: seq<seq<Char>>, n: nat)
    requires Params(ps) && n <= |ps|
  {
    && (forall i: nat :: LastForeground(ps, i, n) ==> fg == if Value(ps[i]) == 39 then 15 else DisplayColour(Value(ps[i]) - 30))
    && ((forall i :: 0 <= i < n ==> !SetsForeground(Value(ps[i]))) ==> fg == before)
  }

  /** The same for the background, where 49 is black. */
  ghost predicate Background(before: nat, bg: nat, ps: seq<seq<Char>>, n: nat)
    requires Params(ps) && n <= |ps|
  {
    && (forall i: nat :: LastBackground(ps, i, n) ==> bg == if Value(ps[i]) == 49 then 0 else DisplayColour(Value(ps[i]) - 40))
    && ((forall i :: 0 <= i < n ==> !SetsBackground(Value(ps[i]))) ==> bg == before)
  }

  lemma ForegroundStep(before: nat, t: Term, ps: seq<seq<Char>>, n: nat)
    requires Params(ps) && 0 < n <= |ps| && Foreground(before, t.fg, ps, n - 1)
    ensures Foreground(before, OneStyle(t, Value(ps[n - 1])).fg, ps, n)
  {
    hide Value;
    var u := OneStyle(t, Value(ps[n - 1]));
    forall i: nat | LastForeground(ps, i, n) ensures u.fg == if Value(ps[i]) == 39 then 15 else DisplayColour(Value(ps[i]) - 30) {
      assert i < n - 1 ==> LastForeground(ps, i, n - 1) && !SetsForeground(Value(ps[n - 1]));
    }
    assert (forall i :: 0 <= i < n ==> !SetsForeground(Value(ps[i]))) ==> u.fg == t.fg;
  }

  lemma BackgroundStep(before: nat, t: Term, ps: seq<seq<Char>>, n: nat)
    requires Params(ps) && 0 < n <= |ps| && Background(before, t.bg, ps, n - 1)
    ensures Background(before, OneStyle(t, Value(ps[n - 1])).bg, ps, n)
  {
    hide Value;
    var u := OneStyle(t, Value(ps[n - 1]));
    forall i: nat | LastBackground(ps, i, n) ensures u.bg == if Value(ps[i]) == 49 then 0 else DisplayColour(Value(ps[i]) - 40) {
      assert i < n - 1 ==> LastBackground(ps, i, n - 1) && !SetsBackground(Value(ps[n - 1]));
    }
    assert (forall i :: 0 <= i < n ==> !SetsBackground(Value(ps[i]))) ==> u.bg == t.bg;
  }

  lemma {:induction false} StylesColour(t: Term, ps: seq<seq<Char>>, n: nat)
    requires Params(ps) && n <= |ps|
    ensures var u := Styles(t, Read(ps)[..n]);
            Foreground(t.fg, u.fg, ps, n) && Background(t.bg, u.bg, ps, n) && u == t.(fg := u.fg, bg := u.bg)
    decreases n
  {
    hide Value, Foreground, Background;
    if n > 0 {
      StylesColour(t, ps, n - 1);
      assert Read(ps)[..n][..n - 1] == Read(ps)[..n - 1];
      ForegroundStep(t.fg, Styles(t, Read(ps)[..n - 1]), ps, n);
      BackgroundStep(t.bg, Styles(t, Read(ps)[..n - 1]), ps, n);
    } else {
      NoStyles(t, ps);
    }
  }

  lemma NoStyles(t: Term, ps: seq<seq<Char>>)
    requires Params(ps)
    ensures Foreground(t.fg, t.fg, ps, 0) && Background(t.bg, t.bg, ps, 0)
  {
  }

  /** ESC [ .. m: each colour is that of the last parameter that sets it, and nothing else changes. */
  lemma ColoursSet(t: Term, ps: seq<seq<Char>>) returns (u: Term)
    requires OnScreen(t) && t.mode == Normal && Params(ps)
    ensures Leads(t, Sequence(ps, 109), u) && OnlyMoved(t.(fg := u.fg, bg := u.bg), u) && u.pos == t.pos
    ensures Foreground(t.fg, u.fg, ps, |ps|) && Background(t.bg, u.bg, ps, |ps|)
  {
    hide Leads, Join, Value, Foreground, Background, Styles;
    SequenceFed(t, ps, 109);
    var q := Ready(t, ps);
    u := Emit(q, 109);
    StylesColour(q.(idx := |ps|), ps, |ps|);
  }
}
