/**
 * A terminal with one linear cursor position over 25 * 80 cells. It is what the
 * row/column console of src/kernel/dev/tty/console.c is proved to implement, and
 * the control sequences follow section 5.4 of ECMA-48 with 0-based positions.
 */
module Terminal {
  import opened Fifo

  const ROWS := 25
  const COLS := 80
  const CELLS := 2000
  const PARAMS := 10
  const INT_END := 0x8000_0000

  const BLACK := 0
  const WHITE := 15

  const ESC: Char := 0x1B
  const DEL: Char := 0x7F
  const BS: Char := 8
  const SPACE: Char := 32

  /** A display cell: the colours are bit-fields of four and three bits. */
  datatype Cell = Cell(c: Char, fg: nat, bg: nat)

  datatype Mode = Normal | Escape | Square

  /** `params` and `idx` are esc_param and curr_param_index. */
  datatype Term = Term(pos: int, saved: int, fg: nat, bg: nat, mode: Mode, params: seq<int>, idx: nat, cells: seq<Cell>)

  // ---------------------------------------------------------------- cells and cursor

  function Ink(t: Term, c: Char): Cell {
    Cell(c, t.fg % 16, t.bg % 8)
  }

  function Blanks(t: Term, n: nat): (r: seq<Cell>)
    ensures |r| == n
  {
    seq(n, _ => Ink(t, SPACE))
  }

  /** The top n lines are gone and the bottom n are blank; as coded, the cursor moves up one line only. */
  function ScrollBy(t: Term, n: nat): Term
    requires |t.cells| == CELLS && n <= ROWS
  {
    t.(cells := t.cells[COLS * n..] + Blanks(t, COLS * n), pos := t.pos - COLS)
  }

  /** One line up: the top line is gone, the bottom line is blank, the cursor moves along. */
  function ScrollOne(t: Term): Term
    requires |t.cells| == CELLS
  {
    t.(cells := t.cells[COLS..] + Blanks(t, COLS), pos := t.pos - COLS)
  }

  lemma ScrollByOne(t: Term)
    requires |t.cells| == CELLS
    ensures ScrollBy(t, 1) == ScrollOne(t)
  {
  }

  /** n single steps forward, scrolling at the end of the screen. */
  function Advance(t: Term, n: nat): Term
    requires |t.cells| == CELLS
    decreases n
  {
    if n == 0 then t else Advance(ScrollIfNeeded(t.(pos := t.pos + 1)), n - 1)
  }

  function ScrollIfNeeded(t: Term): Term
    requires |t.cells| == CELLS
  {
    if t.pos >= CELLS then ScrollOne(t) else t
  }

  function PutChar(t: Term, c: Char): Term
    requires |t.cells| == CELLS && 0 <= t.pos < CELLS
  {
    ScrollIfNeeded(t.(cells := t.cells[t.pos := Ink(t, c)], pos := t.pos + 1))
  }

  function NewLine(t: Term): Term
    requires |t.cells| == CELLS
  {
    ScrollIfNeeded(t.(pos := t.pos - t.pos % COLS + COLS))
  }

  function Back(t: Term): Term {
    BackBy(t, 1)
  }

  /** n steps back, stopping at the origin. */
  function BackBy(t: Term, n: nat): Term {
    if t.pos >= n then t.(pos := t.pos - n) else if t.pos > 0 then t.(pos := 0) else t
  }

  /** Erase-back: the previous cell is blanked and the cursor is on it; at the origin nothing happens. */
  function EraseBack(t: Term): Term
    requires |t.cells| == CELLS && 0 <= t.pos < CELLS
  {
    if t.pos > 0 then t.(cells := t.cells[t.pos - 1 := Ink(t, SPACE)], pos := t.pos - 1) else t
  }

  // ---------------------------------------------------------------- control sequences

  /** CUB (section 8.3.18 of ECMA-48), stopping at the left margin. */
  function CursorLeft(t: Term, n: int): Term {
    var m := if n == 0 then 1 else n;
    var col := t.pos % COLS;
    t.(pos := t.pos - (if m <= col then m else col))
  }

  /** CUF (section 8.3.20), stopping at the right margin. */
  function CursorRight(t: Term, n: int): Term {
    var m := if n == 0 then 1 else n;
    var col := t.pos % COLS;
    t.(pos := t.pos + (if col + m < COLS then m else COLS - 1 - col))
  }

  /** CUP (section 8.3.21), 0-based; a missing second parameter leaves the column. */
  function CursorTo(t: Term): Term
    requires |t.params| == PARAMS
  {
    t.(pos := t.params[0] * COLS + if t.idx >= 2 then t.params[1] else t.pos % COLS)
  }

  /** Where move_cursor puts the row and column, given the number of parameters. */
  function CursorCell(row: int, col: int, params: seq<int>, n: nat): (int, int)
    requires |params| == PARAMS
  {
    (if n >= 1 then params[0] else row, if n >= 2 then params[1] else col)
  }

  /** ED (section 8.3.39): only 2, erase everything, is implemented; it also homes the cursor. */
  function EraseDisplay(t: Term): Term
    requires |t.params| == PARAMS
  {
    if t.params[0] == 2 then t.(cells := Blanks(t, CELLS), pos := 0) else t
  }

  /** The colour of SGR parameter 30 + k or 40 + k. */
  function Colour(k: nat): nat
    requires k < 8
  {
    [0, 4, 2, 14, 1, 5, 3, 15][k]
  }

  /** SGR (section 8.3.117) with one parameter. */
  function OneStyle(t: Term, p: int): Term {
    if 30 <= p <= 37 then t.(fg := Colour(p - 30))
    else if 40 <= p <= 47 then t.(bg := Colour(p - 40))
    else if p == 39 then t.(fg := WHITE)
    else if p == 49 then t.(bg := BLACK)
    else t
  }

  /** SGR with parameters ps, one after the other. */
  function Styles(t: Term, ps: seq<int>): Term
    decreases |ps|
  {
    if |ps| == 0 then t else OneStyle(Styles(t, ps[..|ps| - 1]), ps[|ps| - 1])
  }

  // ---------------------------------------------------------------- one character

  predicate Digit(c: Char) {
    48 <= c <= 57
  }

  function NormalChar(t: Term, c: Char): Term
    requires |t.cells| == CELLS && 0 <= t.pos < CELLS
  {
    if c == ESC then t.(mode := Escape)
    else if c == DEL then EraseBack(t)
    else if c == BS then Back(t)
    else if c == 13 then t.(pos := t.pos - t.pos % COLS)
    else if c == 10 then NewLine(t)
    else if SPACE <= c <= 126 then PutChar(t, c)
    else t
  }

  function EscapeChar(t: Term, c: Char): Term {
    if c == '7' as int then t.(saved := t.pos, mode := Normal)
    else if c == '8' as int then t.(pos := t.saved, mode := Normal)
    else if c == '[' as int then t.(params := seq(PARAMS, _ => 0), idx := 0, mode := Square)
    else t.(mode := Normal)
  }

  /** The final character of a control sequence; `idx` counts the parameters. */
  function Finish(t: Term, c: Char): Term
    requires |t.params| == PARAMS
  {
    if c == 'm' as int then Styles(t, t.params[..if t.idx < PARAMS then t.idx else PARAMS])
    else if c == 'D' as int then CursorLeft(t, t.params[0])
    else if c == 'C' as int then CursorRight(t, t.params[0])
    else if IsCup(c) then CursorTo(t)
    else if c == 'J' as int then EraseDisplay(t)
    else t
  }

  /** A parameter digit, a separator, or the end of the sequence. */
  function SquareChar(t: Term, c: Char): Term
    requires |t.params| == PARAMS && Safe(t, c)
  {
    if Digit(c) then t.(params := t.params[t.idx := t.params[t.idx] * 10 + (c - 48)])
    else if c == ';' as int && t.idx < PARAMS then t.(idx := t.idx + 1)
    else Finish(t.(idx := t.idx + 1), c).(mode := Normal)
  }

  predicate IsCup(c: Char) {
    c == 'H' as int || c == 'f' as int
  }

  /** What keeps the code inside its arrays and ints: at most ten parameters where they are used, and no overflow. */
  predicate Safe(t: Term, c: Char)
    requires |t.params| == PARAMS
  {
    if Digit(c) then t.idx < PARAMS && t.params[t.idx] * 10 + (c - 48) < INT_END
    else if c == 'm' as int then t.idx < PARAMS
    else if c == 'C' as int then t.pos % COLS + t.params[0] < INT_END
    else true
  }

  /** What a stream must respect: safety, and for H and f a position on the screen, which the code does not clamp. */
  predicate InLimits(t: Term, c: Char)
    requires |t.params| == PARAMS
  {
    Safe(t, c) && (IsCup(c) ==> t.params[0] < ROWS && (t.idx >= 1 ==> t.params[1] < COLS))
  }

  /** The cursor and the saved cursor are on the screen. */
  ghost predicate OnScreen(t: Term) {
    && 0 <= t.pos < CELLS && 0 <= t.saved < CELLS && |t.cells| == CELLS
    && |t.params| == PARAMS && (forall i :: 0 <= i < PARAMS ==> t.params[i] >= 0)
    && (t.mode == Square ==> t.idx <= PARAMS)
  }

  predicate CharOk(t: Term, c: Char)
    requires |t.params| == PARAMS
  {
    t.mode == Square ==> InLimits(t, c)
  }

  predicate CharSafe(t: Term, c: Char)
    requires |t.params| == PARAMS
  {
    t.mode == Square ==> Safe(t, c)
  }

  function Emit(t: Term, c: Char): Term
    requires |t.cells| == CELLS && 0 <= t.pos < CELLS && |t.params| == PARAMS && CharSafe(t, c)
  {
    match t.mode
    case Normal => NormalChar(t, c)
    case Escape => EscapeChar(t, c)
    case Square => SquareChar(t, c)
  }

  // ---------------------------------------------------------------- theorems

  lemma {:induction false} StylesKeep(t: Term, ps: seq<int>)
    ensures var u := Styles(t, ps);
            u.pos == t.pos && u.saved == t.saved && u.cells == t.cells && u.params == t.params && u.idx == t.idx && u.mode == t.mode
    decreases |ps|
  {
    if |ps| > 0 {
      StylesKeep(t, ps[..|ps| - 1]);
    }
  }

  lemma MarginFacts(pos: int)
    requires 0 <= pos < CELLS
    ensures 0 <= pos - pos % COLS && pos - pos % COLS + COLS <= CELLS && 0 <= pos % COLS < COLS
  {
  }

  /** Every character within the limits keeps both cursors on the screen. */
  lemma EmitStaysOnScreen(t: Term, c: Char)
    requires OnScreen(t) && CharOk(t, c)
    ensures OnScreen(Emit(t, c))
  {
    MarginFacts(t.pos);
    if t.mode == Square && !Digit(c) {
      var f := t.(idx := t.idx + 1);
      if c == 'm' as int {
        StylesKeep(f, f.params[..f.idx]);
      }
    }
  }

  /** The stream respects the limits at every character. That the terminal is on its screen there is a consequence. */
  ghost predicate StreamOk(t: Term, stream: seq<Char>)
    requires OnScreen(t)
    decreases |stream|
  {
    |stream| > 0 ==>
      && CharOk(t, stream[0])
      && (EmitStaysOnScreen(t, stream[0]);
          StreamOk(Emit(t, stream[0]), stream[1..]))
  }

  ghost function Feed(t: Term, stream: seq<Char>): Term
    requires OnScreen(t) && StreamOk(t, stream)
    decreases |stream|
  {
    if |stream| == 0 then t
    else
      EmitStaysOnScreen(t, stream[0]);
      Feed(Emit(t, stream[0]), stream[1..])
  }

  /** Any stream within the limits leaves both cursors on the screen. */
  lemma {:induction false} FeedStaysOnScreen(t: Term, stream: seq<Char>)
    requires OnScreen(t) && StreamOk(t, stream)
    ensures OnScreen(Feed(t, stream))
    decreases |stream|
  {
    hide Emit;
    if |stream| > 0 {
      EmitStaysOnScreen(t, stream[0]);
      FeedStaysOnScreen(Emit(t, stream[0]), stream[1..]);
    }
  }

  /** Plain text of n characters that does not reach the end of the screen lands in n consecutive cells. */
  lemma {:induction false} TextLands(t: Term, text: seq<Char>)
    requires OnScreen(t) && t.mode == Normal && t.pos + |text| < CELLS
    requires forall i :: 0 <= i < |text| ==> SPACE <= text[i] <= 126
    ensures StreamOk(t, text)
    ensures var u := Feed(t, text);
            && u.pos == t.pos + |text| && u.mode == Normal
            && u.cells == t.cells[..t.pos] + seq(|text|, i requires 0 <= i < |text| => Ink(t, text[i])) + t.cells[t.pos + |text|..]
    decreases |text|
  {
    if |text| > 0 {
      var v := Emit(t, text[0]);
      assert v == t.(cells := t.cells[t.pos := Ink(t, text[0])], pos := t.pos + 1);
      TextLands(v, text[1..]);
      var u := Feed(t, text);
      var ink := seq(|text|, i requires 0 <= i < |text| => Ink(t, text[i]));
      var rest := seq(|text| - 1, i requires 0 <= i < |text| - 1 => Ink(v, text[1..][i]));
      assert ink == [Ink(t, text[0])] + rest;
      assert u.cells == t.cells[..t.pos] + ink + t.cells[t.pos + |text|..];
    }
  }

  /** Writing a character and erasing it back returns the cursor and blanks that one cell; on the last cell the screen has scrolled. */
  lemma EraseUndoesChar(t: Term, c: Char)
    requires OnScreen(t) && t.mode == Normal && SPACE <= c <= 126
    ensures var blank := t.(cells := t.cells[t.pos := Ink(t, SPACE)]);
            EraseBack(PutChar(t, c)) == if t.pos < CELLS - 1 then blank else ScrollOne(blank)
  {
    if t.pos == CELLS - 1 {
      var blank := t.(cells := t.cells[t.pos := Ink(t, SPACE)]);
      assert EraseBack(PutChar(t, c)).cells == ScrollOne(blank).cells;
    }
  }
}
