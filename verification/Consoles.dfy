/**
 * console.c as it runs (src/kernel/dev/tty/console.c:40-388): rows and columns, a
 * display array written in place, an overlapping copy for scrolling. Every method is
 * proved to do what the linear terminal of module Terminal does.
 */
module Consoles {
  import opened Fifo
  import opened Terminal

  class Console {
    var cursorRow: int
    var cursorCol: int
    var oldCursorRow: int
    var oldCursorCol: int
    var foreground: nat
    var background: nat
    var writeState: Mode
    const escParam: array<int>
    var currParamIndex: nat
    const disp: array<Cell>

    ghost predicate Sized()
    {
      disp.Length == CELLS && escParam.Length == PARAMS
    }

    ghost predicate CursorOnScreen()
      reads this
    {
      0 <= cursorRow < ROWS && 0 <= cursorCol < COLS
    }

    /** Both cursors are on the screen and the parameters are nonnegative. */
    ghost predicate Valid()
      reads this, escParam
    {
      && Sized()
      && 0 <= cursorRow < ROWS && 0 <= cursorCol < COLS && 0 <= oldCursorRow < ROWS && 0 <= oldCursorCol < COLS
      && (forall i :: 0 <= i < PARAMS ==> escParam[i] >= 0)
      && (writeState == Square ==> currParamIndex <= PARAMS)
    }

    /** The linear terminal this console stands for. */
    ghost function View(): Term
      reads this, escParam, disp
    {
      Term(cursorRow * COLS + cursorCol, oldCursorRow * COLS + oldCursorCol, foreground, background, writeState, escParam[..], currParamIndex, disp[..])
    }

    /** console_init for a screen other than the first: cleared, white on black, cursor at the origin. */
    constructor ()
      ensures Valid() && fresh(escParam) && fresh(disp)
      ensures View() == Term(0, 0, WHITE, BLACK, Normal, seq(PARAMS, _ => 0), 0, seq(CELLS, _ => Cell(SPACE, 15, 0)))
    {
      cursorRow, cursorCol, oldCursorRow, oldCursorCol := 0, 0, 0, 0;
      foreground, background, writeState, currParamIndex := WHITE, BLACK, Normal, 0;
      escParam := new int[10](_ => 0);
      disp := new Cell[2000](_ => Cell(SPACE, 15, 0));
    }

    /** console_init for the first screen: the display is kept, and the cursor position comes from the hardware. */
    constructor Kept(screen: seq<Cell>, pos: nat)
      requires |screen| == CELLS && pos < CELLS
      ensures Valid() && fresh(escParam) && fresh(disp)
      ensures View() == Term(pos, pos, WHITE, BLACK, Normal, seq(PARAMS, _ => 0), 0, screen)
    {
      cursorRow, cursorCol, oldCursorRow, oldCursorCol := pos / COLS, pos % COLS, pos / COLS, pos % COLS;
      foreground, background, writeState, currParamIndex := WHITE, BLACK, Normal, 0;
      escParam := new int[10](_ => 0);
      disp := new Cell[2000](i requires 0 <= i < |screen| => screen[i]);
      new;
      assert disp[..] == screen;
    }

    /** erease_rows. */
    method EraseRows(from: int, to: int)
      requires Sized() && 0 <= from && to < ROWS
      modifies disp
      ensures forall i :: 0 <= i < CELLS ==> disp[i] == if COLS * from <= i < COLS * (to + 1) then Ink(View(), SPACE) else old(disp[i])
    {
      var i := COLS * from;
      while i < COLS * (to + 1)
        invariant COLS * from <= i
        invariant forall k :: 0 <= k < CELLS ==> disp[k] == if COLS * from <= k < i && k < COLS * (to + 1) then Ink(View(), SPACE) else old(disp[k])
      {
        disp[i] := Cell(SPACE, foreground % 16, background % 8);
        i := i + 1;
      }
    }

    /** The ascending copy of k_memcpy, whose source overlaps its destination: an exact shift. */
    method CopyUp(distance: nat)
      requires Sized() && distance <= CELLS
      modifies disp
      ensures disp[..] == old(disp[..])[distance..] + old(disp[..])[CELLS - distance..]
    {
      ghost var cells := disp[..];
      var i := 0;
      while i < CELLS - distance
        invariant 0 <= i <= CELLS - distance
        invariant forall j :: 0 <= j < i ==> disp[j] == cells[j + distance]
        invariant forall j :: i <= j < CELLS ==> disp[j] == cells[j]
      {
        disp[i] := disp[i + distance];
        i := i + 1;
      }
      assert disp[..i] == cells[distance..] && disp[i..] == cells[CELLS - distance..];
      assert disp[..] == disp[..i] + disp[i..];
    }

    /** scroll_up. */
    method ScrollUp(lines: nat)
      requires Sized() && lines <= ROWS
      modifies this`cursorRow, disp
      ensures View() == ScrollBy(old(View()), lines) && cursorRow == old(cursorRow) - 1
    {
      CopyUp(COLS * lines);
      EraseRows(ROWS - lines, ROWS - 1);
      cursorRow := cursorRow - 1;
      ghost var t := old(View());
      forall i | 0 <= i < CELLS
        ensures disp[i] == ScrollBy(t, lines).cells[i]
      {
      }
      assert disp[..] == ScrollBy(t, lines).cells;
    }

    /** move_forward. */
    method Forward(n: nat)
      requires Sized() && 0 <= cursorRow < ROWS && 0 <= cursorCol < COLS
      modifies this`cursorRow, this`cursorCol, disp
      ensures View() == Advance(old(View()), n)
      ensures 0 <= cursorRow < ROWS && 0 <= cursorCol < COLS
    {
      hide ScrollBy, ScrollOne;
      var i := 0;
      while i < n
        invariant 0 <= i <= n && 0 <= cursorRow < ROWS && 0 <= cursorCol < COLS
        invariant Advance(View(), n - i) == Advance(old(View()), n)
      {
        cursorCol := cursorCol + 1;
        if cursorCol >= COLS {
          cursorRow := cursorRow + 1;
          cursorCol := 0;
          if cursorRow >= ROWS {
            ScrollByOne(View());
            ScrollUp(1);
          }
        }
        i := i + 1;
      }
    }

    /** move_backward: 0 if it moved at all, -1 otherwise. */
    method Backward(n: nat) returns (status: int)
      requires Sized() && 0 <= cursorRow < ROWS && 0 <= cursorCol < COLS
      modifies this`cursorRow, this`cursorCol
      ensures View() == BackBy(old(View()), n) && status == if old(View()).pos > 0 && n > 0 then 0 else -1
      ensures 0 <= cursorRow < ROWS && 0 <= cursorCol < COLS
    {
      status := -1;
      var i := 0;
      while i < n
        invariant 0 <= i <= n && 0 <= cursorRow < ROWS && 0 <= cursorCol < COLS
        invariant View() == BackBy(old(View()), i) && status == if old(View()).pos > 0 && i > 0 then 0 else -1
      {
        if cursorCol > 0 {
          cursorCol := cursorCol - 1;
          status := 0;
        } else if cursorRow > 0 {
          cursorRow := cursorRow - 1;
          cursorCol := COLS - 1;
          status := 0;
        }
        i := i + 1;
      }
    }

    /** show_char. */
    method ShowChar(c: Char)
      requires Sized() && 0 <= cursorRow < ROWS && 0 <= cursorCol < COLS
      modifies this`cursorRow, this`cursorCol, disp
      ensures View() == PutChar(old(View()), c)
      ensures 0 <= cursorRow < ROWS && 0 <= cursorCol < COLS
    {
      var offset := cursorCol + cursorRow * COLS;
      disp[offset] := Cell(c, foreground % 16, background % 8);
      assert disp[..] == old(View()).cells[old(View()).pos := Ink(old(View()), c)];
      Forward(1);
    }

    /** erease_back: it shows a blank one cell back, which never scrolls. */
    method Rubout()
      requires Sized() && 0 <= cursorRow < ROWS && 0 <= cursorCol < COLS
      modifies this`cursorRow, this`cursorCol, disp
      ensures View() == EraseBack(old(View()))
      ensures 0 <= cursorRow < ROWS && 0 <= cursorCol < COLS
    {
      var status := Backward(1);
      if status == 0 {
        ShowChar(SPACE);
        status := Backward(1);
      }
    }

    /** mov_to_col0 and mov_next_row. */
    method NextRow()
      requires Sized() && 0 <= cursorRow < ROWS && 0 <= cursorCol < COLS
      modifies this`cursorRow, this`cursorCol, disp
      ensures View() == NewLine(old(View()))
      ensures 0 <= cursorRow < ROWS && 0 <= cursorCol < COLS
    {
      RowCol(cursorRow, cursorCol);
      cursorCol := 0;
      cursorRow := cursorRow + 1;
      if cursorRow >= ROWS {
        ScrollByOne(View());
        ScrollUp(1);
      }
    }

    /** write_nomal. */
    method WriteNormal(c: Char)
      requires Valid()
      modifies this, disp
      ensures Valid() && View() == NormalChar(old(View()), c)
    {
      hide ScrollIfNeeded;
      RowCol(cursorRow, cursorCol);
      if c == ESC {
        writeState := Escape;
      } else if c == DEL {
        Rubout();
      } else if c == BS {
        var status := Backward(1);
      } else if c == 13 {
        cursorCol := 0;
      } else if c == 10 {
        NextRow();
      } else if SPACE <= c <= 126 {
        ShowChar(c);
      }
    }

    /** write_esc. */
    method WriteEsc(c: Char)
      requires Valid()
      modifies this, escParam
      ensures Valid() && View() == EscapeChar(old(View()), c)
    {
      if c == '7' as int {
        oldCursorCol, oldCursorRow := cursorCol, cursorRow;
        writeState := Normal;
      } else if c == '8' as int {
        cursorCol, cursorRow := oldCursorCol, oldCursorRow;
        writeState := Normal;
      } else if c == '[' as int {
        forall i | 0 <= i < PARAMS {
          escParam[i] := 0;
        }
        assert escParam[..] == seq(PARAMS, _ => 0);
        currParamIndex := 0;
        writeState := Square;
      } else {
        writeState := Normal;
      }
    }

    /** set_font_style. */
    method SetFontStyle()
      requires Sized() && currParamIndex <= PARAMS
      modifies this`foreground, this`background
      ensures View() == Styles(old(View()), escParam[..currParamIndex])
    {
      var i := 0;
      while i < currParamIndex
        invariant 0 <= i <= currParamIndex
        invariant View() == Styles(old(View()), escParam[..i])
      {
        var p := escParam[i];
        StylesStep(old(View()), escParam[..], i);
        if 30 <= p <= 37 {
          foreground := Colour(p - 30);
        } else if 40 <= p <= 47 {
          background := Colour(p - 40);
        } else if p == 39 {
          foreground := WHITE;
        } else if p == 49 {
          background := BLACK;
        }
        i := i + 1;
      }
    }

    /** move_left. */
    method MoveLeft(n: int)
      requires Sized() && 0 <= cursorRow < ROWS && 0 <= cursorCol < COLS && n >= 0
      modifies this`cursorCol
      ensures View() == CursorLeft(old(View()), n) && 0 <= cursorCol < COLS
    {
      RowCol(cursorRow, cursorCol);
      var m := if n == 0 then 1 else n;
      var col := cursorCol - m;
      cursorCol := if col >= 0 then col else 0;
    }

    /** move_right. */
    method MoveRight(n: int)
      requires Sized() && 0 <= cursorRow < ROWS && 0 <= cursorCol < COLS && n >= 0
      modifies this`cursorCol
      ensures View() == CursorRight(old(View()), n) && 0 <= cursorCol < COLS
    {
      RowCol(cursorRow, cursorCol);
      var m := if n == 0 then 1 else n;
      var col := cursorCol + m;
      if col >= COLS {
        cursorCol := COLS - 1;
      } else {
        cursorCol := col;
      }
    }

    /**
     * move_cursor, for any parameters. It does not clamp: the cursor ends up on the screen
     * if and only if the parameters used are a position on it.
     */
    method MoveCursor()
      requires Sized() && 0 <= cursorRow < ROWS && 0 <= cursorCol < COLS && forall i :: 0 <= i < PARAMS ==> escParam[i] >= 0
      modifies this`cursorRow, this`cursorCol
      ensures (cursorRow, cursorCol) == CursorCell(old(cursorRow), old(cursorCol), escParam[..], currParamIndex)
      ensures currParamIndex >= 1 ==> View() == CursorTo(old(View()))
      ensures CursorOnScreen() <==> (currParamIndex >= 1 ==> escParam[0] < ROWS) && (currParamIndex >= 2 ==> escParam[1] < COLS)
    {
      RowCol(cursorRow, cursorCol);
      if currParamIndex >= 1 {
        cursorRow := escParam[0];
      }
      if currParamIndex >= 2 {
        cursorCol := escParam[1];
      }
    }

    /** erase_in_display. */
    method EraseInDisplay()
      requires Sized() && 0 <= cursorRow < ROWS && 0 <= cursorCol < COLS
      modifies this`cursorRow, this`cursorCol, disp
      ensures View() == if currParamIndex == 0 then old(View()) else EraseDisplay(old(View()))
      ensures 0 <= cursorRow < ROWS && 0 <= cursorCol < COLS
    {
      if currParamIndex <= 0 {
        return;
      }
      if escParam[0] == 2 {
        EraseRows(0, ROWS - 1);
        assert disp[..] == Blanks(old(View()), CELLS);
        cursorCol, cursorRow := 0, 0;
      }
    }

    /** The final characters of write_esc_square. */
    method FinishSequence(c: Char)
      requires Sized() && 0 <= cursorRow < ROWS && 0 <= cursorCol < COLS && 1 <= currParamIndex
      requires forall i :: 0 <= i < PARAMS ==> escParam[i] >= 0
      requires c == 'm' as int ==> currParamIndex <= PARAMS
      modifies this`cursorRow, this`cursorCol, this`foreground, this`background, disp
      ensures View() == Finish(old(View()), c)
      ensures CursorOnScreen() <==> (IsCup(c) ==> escParam[0] < ROWS && (currParamIndex >= 2 ==> escParam[1] < COLS))
      ensures IsCup(c) ==> (cursorRow, cursorCol) == CursorCell(old(cursorRow), old(cursorCol), escParam[..], currParamIndex)
    {
      hide CursorLeft, CursorRight, CursorTo, EraseDisplay;
      if c == 'm' as int {
        SetFontStyle();
      } else if c == 'D' as int {
        MoveLeft(escParam[0]);
      } else if c == 'C' as int {
        MoveRight(escParam[0]);
      } else if IsCup(c) {
        MoveCursor();
      } else if c == 'J' as int {
        EraseInDisplay();
      }
    }

    /** write_esc_square. It leaves the screen exactly when the sequence is not within the limits. */
    method WriteSquare(c: Char)
      requires Valid() && writeState == Square && Safe(View(), c)
      modifies this, escParam, disp
      ensures View() == SquareChar(old(View()), c)
      ensures Valid() <==> InLimits(old(View()), c)
      ensures IsCup(c) ==> (cursorRow, cursorCol) == CursorCell(old(cursorRow), old(cursorCol), old(escParam[..]), old(currParamIndex) + 1)
    {
      hide Finish;
      if Digit(c) {
        escParam[currParamIndex] := escParam[currParamIndex] * 10 + (c - 48);
        assert escParam[..] == old(escParam[..])[currParamIndex := old(escParam[currParamIndex]) * 10 + (c - 48)];
      } else if c == ';' as int && currParamIndex < PARAMS {
        currParamIndex := currParamIndex + 1;
      } else {
        currParamIndex := currParamIndex + 1;
        FinishSequence(c);
        writeState := Normal;
      }
    }

    /** The switch in console_write. */
    method WriteChar(c: Char)
      requires Valid() && CharSafe(View(), c)
      modifies this, escParam, disp
      ensures View() == Emit(old(View()), c)
      ensures Valid() <==> CharOk(old(View()), c)
      ensures old(writeState) == Square && IsCup(c) ==>
                (cursorRow, cursorCol) == CursorCell(old(cursorRow), old(cursorCol), old(escParam[..]), old(currParamIndex) + 1)
    {
      hide NormalChar, EscapeChar, SquareChar;
      ViewOnScreen();
      match writeState
      case Normal => WriteNormal(c);
      case Escape => WriteEsc(c);
      case Square => WriteSquare(c);
    }

    lemma ViewOnScreen()
      requires Valid()
      ensures OnScreen(View())
    {
    }

    /** console_write: the buffer is drained, and the terminal is fed its contents in order. */
    method Drain(fifo: TtyFifo) returns (len: nat)
      requires Valid() && fifo.Valid() && OnScreen(View()) && StreamOk(View(), fifo.Contents())
      modifies this, escParam, disp, fifo
      ensures Valid() && fifo.Valid() && fifo.Contents() == [] && len == |old(fifo.Contents())|
      ensures View() == Feed(old(View()), old(fifo.Contents()))
    {
      hide Emit, Ring;
      len := 0;
      while true
        invariant Valid() && fifo.Valid() && OnScreen(View()) && StreamOk(View(), fifo.Contents())
        invariant Feed(View(), fifo.Contents()) == Feed(old(View()), old(fifo.Contents()))
        invariant len + |fifo.Contents()| == |old(fifo.Contents())|
        decreases |fifo.Contents()|
      {
        ghost var before := fifo.Contents();
        var err, ch := fifo.Get();
        if err < 0 {
          break;
        }
        EmitStaysOnScreen(View(), ch);
        WriteChar(ch);
        len := len + 1;
      }
    }
  }

  /** ESC [ 9 9 H asks any console for row 99 of 25, and gets it: the next character is stored outside the display. */
  method CursorLeavesScreen(console: Console)
    requires console.Valid() && console.writeState == Normal
    modifies console, console.escParam, console.disp
    ensures console.cursorRow == 99 && !console.Valid()
    ensures console.cursorRow * COLS + console.cursorCol >= console.disp.Length
  {
    console.WriteChar(ESC);
    console.WriteChar('[' as int);
    console.WriteChar('9' as int);
    console.WriteChar('9' as int);
    console.WriteChar('H' as int);
  }

  lemma RowCol(row: int, col: int)
    requires 0 <= row < ROWS && 0 <= col < COLS
    ensures (row * COLS + col) % COLS == col && (row * COLS + col) / COLS == row && 0 <= row * COLS + col < CELLS
  {
  }

  lemma StylesStep(t: Term, ps: seq<int>, i: nat)
    requires i < |ps|
    ensures Styles(t, ps[..i + 1]) == OneStyle(Styles(t, ps[..i]), ps[i])
  {
    assert ps[..i + 1][..i] == ps[..i];
  }
}
