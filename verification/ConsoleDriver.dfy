/** The console in video memory: 2000 character cells, the flat ring of 500 lines and the saved screen,
    changed in place by `io.asm` and `scrollback.c`. */
module ConsoleDriver {
  import opened Machine
  import T = Terminal

  type Cell = T.Cell
  type Row = T.Row
  const COLS := T.COLS
  const ROWS := T.ROWS
  const RING := T.RING
  const CELLS := COLS * ROWS

  // ---------------------------------------------------------------- rows of flat memory

  function RowAt(s: seq<Cell>, y: nat): Row
    requires COLS * (y + 1) <= |s|
  {
    s[COLS * y..COLS * y + COLS]
  }

  function Grid(s: seq<Cell>, n: nat): (r: seq<Row>)
    requires |s| == COLS * n
    ensures |r| == n
  {
    seq(n, y requires 0 <= y < n => RowAt(s, y))
  }

  function SetRow(s: seq<Cell>, y: nat, row: Row): (r: seq<Cell>)
    requires COLS * (y + 1) <= |s|
    ensures |r| == |s|
  {
    s[..COLS * y] + row + s[COLS * y + COLS..]
  }

  lemma RowOfSetRow(s: seq<Cell>, y: nat, row: Row, i: nat)
    requires COLS * (y + 1) <= |s| && COLS * (i + 1) <= |s|
    ensures RowAt(SetRow(s, y, row), i) == if i == y then row else RowAt(s, i)
  {
    var r := SetRow(s, y, row);
    if i < y {
      assert RowAt(r, i) == RowAt(s, i);
    } else if i > y {
      forall x | 0 <= x < COLS ensures RowAt(r, i)[x] == RowAt(s, i)[x] {}
    }
  }

  lemma GridOfSetRow(s: seq<Cell>, n: nat, y: nat, row: Row)
    requires |s| == COLS * n && y < n
    ensures Grid(SetRow(s, y, row), n) == Grid(s, n)[y := row]
  {
    forall i | 0 <= i < n ensures Grid(SetRow(s, y, row), n)[i] == Grid(s, n)[y := row][i] {
      RowOfSetRow(s, y, row, i);
    }
  }

  /** One cell of flat memory is one cell of one row. */
  lemma GridOfCell(s: seq<Cell>, n: nat, y: nat, x: nat, v: Cell)
    requires |s| == COLS * n && y < n && x < COLS
    ensures Grid(s[COLS * y + x := v], n) == Grid(s, n)[y := Grid(s, n)[y][x := v]]
  {
    var row: Row := RowAt(s, y)[x := v];
    assert s[COLS * y + x := v] == SetRow(s, y, row);
    GridOfSetRow(s, n, y, row);
  }

  /** Memory after one line was moved out at the top and blanks were stored at the bottom. */
  lemma GridOfScroll(s: seq<Cell>, r: seq<Cell>, blank: Cell)
    requires |s| == |r| == CELLS
    requires forall j :: 0 <= j < CELLS - COLS ==> r[j] == s[j + COLS]
    requires forall j :: CELLS - COLS <= j < CELLS ==> r[j] == blank
    ensures Grid(r, ROWS) == Grid(s, ROWS)[1..] + [seq(COLS, _ => blank)]
  {
    forall y | 0 <= y < ROWS - 1 ensures RowAt(r, y) == RowAt(s, y + 1) {
      forall x | 0 <= x < COLS ensures RowAt(r, y)[x] == RowAt(s, y + 1)[x] {
        assert r[COLS * y + x] == s[COLS * y + x + COLS];
      }
    }
    assert RowAt(r, ROWS - 1) == seq(COLS, _ => blank);
  }

  lemma GridOfFill(r: seq<Cell>, blank: Cell)
    requires |r| == CELLS && forall j :: 0 <= j < CELLS ==> r[j] == blank
    ensures Grid(r, ROWS) == seq(ROWS, _ => seq(COLS, _ => blank))
  {
    forall y | 0 <= y < ROWS ensures RowAt(r, y) == seq(COLS, _ => blank) {}
  }

  // ---------------------------------------------------------------- block moves

  /** Copies line `i` of `src` to line `j` of `dst`, a cell at a time. */
  method CopyRow(src: array<Cell>, i: nat, dst: array<Cell>, j: nat)
    requires src != dst && COLS * (i + 1) <= src.Length && COLS * (j + 1) <= dst.Length
    modifies dst
    ensures dst[..] == SetRow(old(dst[..]), j, RowAt(src[..], i))
  {
    var x := 0;
    while x < COLS
      invariant 0 <= x <= COLS
      invariant forall k :: 0 <= k < dst.Length ==>
        dst[k] == if COLS * j <= k < COLS * j + x then src[COLS * i + (k - COLS * j)] else old(dst[k])
    {
      dst[COLS * j + x] := src[COLS * i + x];
      x := x + 1;
    }
  }

  /** `rep stosw`. */
  method Store(dst: array<Cell>, from: nat, n: nat, v: Cell)
    requires from + n <= dst.Length
    modifies dst
    ensures forall k :: 0 <= k < dst.Length ==> dst[k] == if from <= k < from + n then v else old(dst[k])
  {
    var i := 0;
    while i < n
      invariant 0 <= i <= n
      invariant forall k :: 0 <= k < dst.Length ==> dst[k] == if from <= k < from + i then v else old(dst[k])
    {
      dst[from + i] := v;
      i := i + 1;
    }
  }

  /** `rep movsw` one line down in memory, overlapping itself, upwards. */
  method MoveUp(a: array<Cell>)
    requires a.Length == CELLS
    modifies a
    ensures forall k :: 0 <= k < CELLS - COLS ==> a[k] == old(a[k + COLS])
  {
    var i := 0;
    while i < CELLS - COLS
      invariant 0 <= i <= CELLS - COLS
      invariant forall k :: 0 <= k < i ==> a[k] == old(a[k + COLS])
      invariant forall k :: i <= k < CELLS ==> a[k] == old(a[k])
    {
      a[i] := a[i + COLS];
      i := i + 1;
    }
  }

  /** All 25 lines. */
  method CopyScreen(src: array<Cell>, dst: array<Cell>)
    requires src != dst && src.Length == dst.Length == CELLS
    modifies dst
    ensures Grid(dst[..], ROWS) == Grid(src[..], ROWS)
  {
    var y := 0;
    while y < ROWS
      invariant 0 <= y <= ROWS
      invariant forall i :: 0 <= i < y ==> RowAt(dst[..], i) == RowAt(src[..], i)
    {
      ghost var s := dst[..];
      CopyRow(src, y, dst, y);
      forall i | 0 <= i <= y ensures RowAt(dst[..], i) == RowAt(src[..], i) {
        RowOfSetRow(s, y, RowAt(src[..], y), i);
      }
      y := y + 1;
    }
  }

  /** The redraw loop has passed the rows above `y`. */
  ghost predicate Drawn(c: T.Console, s: seq<Cell>, y: nat)
    requires T.ConsoleOk(c)
  {
    && |s| == CELLS
    && forall i :: 0 <= i < ROWS ==>
         RowAt(s, i) == if i < y then T.ViewLine(c, c.count - c.offset + i, i) else c.screen[i]
  }

  lemma DrawnStep(c: T.Console, s: seq<Cell>, y: nat, i: int)
    requires T.ConsoleOk(c) && y < ROWS && Drawn(c, s, y) && i == c.count - c.offset + y
    ensures |s| == CELLS && RowAt(s, y) == c.screen[y] && Drawn(c, SetRow(s, y, T.ViewLine(c, i, y)), y + 1)
  {
    var line := T.ViewLine(c, i, y);
    forall k | 0 <= k < ROWS ensures RowAt(SetRow(s, y, line), k) == if k == y then line else RowAt(s, k) {
      RowOfSetRow(s, y, line, k);
    }
  }

  lemma DrawnAll(c: T.Console, s: seq<Cell>)
    requires T.ConsoleOk(c) && Drawn(c, s, ROWS)
    ensures Grid(s, ROWS) == T.View(c)
  {
    forall i | 0 <= i < ROWS ensures Grid(s, ROWS)[i] == T.View(c)[i] {
      assert RowAt(s, i) == T.ViewLine(c, c.count - c.offset + i, i);
    }
  }

  // ---------------------------------------------------------------- the console

  class Console {
    const screen: array<Cell>
    const ring: array<Cell>
    const saved: array<Cell>
    var row: nat
    var col: nat
    var attr: byte
    var writePos: nat
    var count: nat
    var offset: int
    var screenSaved: bool

    predicate Valid() reads this {
      && screen.Length == saved.Length == CELLS && ring.Length == COLS * RING
      && screen != saved && screen != ring && saved != ring
      && row < ROWS && col < COLS && writePos < RING && count <= RING && 0 <= offset <= count
    }

    ghost function State(): (c: T.Console)
      requires Valid()
      reads this, screen, ring, saved
      ensures T.ConsoleOk(c) && c.offset <= c.count
    {
      T.Console(Grid(screen[..], ROWS), row, col, attr, Grid(ring[..], RING), writePos, count,
                offset, Grid(saved[..], ROWS), screenSaved)
    }

    constructor (a: byte)
      ensures Valid() && fresh(screen) && fresh(ring) && fresh(saved)
      ensures State() == T.Boot(a)
    {
      var blank := T.Glyph(T.SPACE, a);
      screen := new Cell[CELLS](_ => blank);
      saved := new Cell[CELLS](_ => blank);
      ring := new Cell[COLS * RING](_ => 0);
      row, col, attr, writePos, count, offset, screenSaved := 0, 0, a, 0, 0, 0, false;
      new;
      GridOfFill(screen[..], blank);
      GridOfFill(saved[..], blank);
      forall y | 0 <= y < RING ensures Grid(ring[..], RING)[y] == T.ZERO_ROW {}
    }

    /** `scrollback_capture_line`. */
    method Capture()
      requires Valid()
      modifies this`writePos, this`count, ring
      ensures Valid() && State() == T.Capture(old(State()))
    {
      ghost var was := ring[..];
      CopyRow(screen, 0, ring, writePos);
      GridOfSetRow(was, RING, writePos, RowAt(screen[..], 0));
      writePos := (writePos + 1) % RING;
      if count < RING {
        count := count + 1;
      }
    }

    /** `scroll_up`. */
    method ScrollUp()
      requires Valid()
      modifies this`writePos, this`count, ring, screen
      ensures Valid() && State() == T.ScrollUp(old(State()))
    {
      Capture();
      ghost var was := screen[..];
      MoveUp(screen);
      Store(screen, CELLS - COLS, COLS, T.Glyph(T.SPACE, attr));
      GridOfScroll(was, screen[..], T.Glyph(T.SPACE, attr));
    }

    method Poke(x: nat, ch: byte)
      requires Valid() && x < COLS
      modifies screen
      ensures Valid() && State() == T.Poke(old(State()), x, ch)
      ensures screen[COLS * row + x] % 0x100 == ch && screen[COLS * row + x] / 0x100 == attr
    {
      GridOfCell(screen[..], ROWS, row, x, T.Glyph(ch, attr));
      screen[COLS * row + x] := T.Glyph(ch, attr);
    }

    method Advance()
      requires Valid()
      modifies this`row, this`col, this`writePos, this`count, ring, screen
      ensures Valid() && State() == T.Advance(old(State()))
    {
      if row + 1 < ROWS {
        row := row + 1;
      } else {
        ScrollUp();
        row := ROWS - 1;
      }
      col := 0;
    }

    /** `putc`. A character that does not reach the margin is in the low byte of the cell at the cursor, with
        the attribute in the high byte. */
    method Putc(ch: byte)
      requires Valid()
      modifies this`row, this`col, this`writePos, this`count, ring, screen
      ensures Valid() && State() == T.Putc(old(State()), ch)
      ensures T.IsGlyph(ch) && old(col) + 1 < COLS ==>
        var cell := screen[COLS * old(row) + old(col)]; cell % 0x100 == ch && cell / 0x100 == attr
    {
      if ch == T.NEWLINE {
        Advance();
      } else if ch == T.RETURN {
        col := 0;
      } else if ch == T.BACKSPACE {
        if col != 0 {
          col := col - 1;
          Poke(col, T.SPACE);
        }
      } else {
        Poke(col, ch);
        if col + 1 < COLS {
          col := col + 1;
        } else {
          Advance();
        }
      }
    }

    /** `puts`: every character up to the terminating zero. */
    method Puts(s: seq<byte>)
      requires Valid()
      modifies this`row, this`col, this`writePos, this`count, ring, screen
      ensures Valid()
      ensures State() == T.Run(old(State()), seq(|s|, i requires 0 <= i < |s| => T.Put(s[i])))
    {
      ghost var ops := seq(|s|, i requires 0 <= i < |s| => T.Put(s[i]));
      var i := 0;
      while i < |s|
        invariant 0 <= i <= |s| && Valid()
        invariant State() == T.Run(old(State()), ops[..i])
      {
        Putc(s[i]);
        assert ops[..i + 1][..i] == ops[..i];
        i := i + 1;
      }
      assert ops[..i] == ops;
    }

    /** `cls`. */
    method Cls()
      requires Valid()
      modifies this`row, this`col, screen
      ensures Valid() && State() == T.Cls(old(State()))
    {
      Store(screen, 0, CELLS, T.Glyph(T.SPACE, attr));
      GridOfFill(screen[..], T.Glyph(T.SPACE, attr));
      row, col := 0, 0;
    }

    /** `save_current_screen`. */
    method Save()
      requires Valid()
      modifies this`screenSaved, saved
      ensures Valid() && State() == T.Save(old(State()))
    {
      if !screenSaved {
        CopyScreen(screen, saved);
        screenSaved := true;
      }
    }

    /** `restore_saved_screen`. */
    method Restore()
      requires Valid()
      modifies this`screenSaved, screen
      ensures Valid() && State() == T.Restore(old(State()))
    {
      if screenSaved {
        CopyScreen(saved, screen);
        screenSaved := false;
      }
    }

    /** Only the screen differs from console `c`. */
    ghost predicate ScreenOnly(c: T.Console)
      requires Valid()
      reads this, screen, ring, saved
    {
      State() == c.(screen := Grid(screen[..], ROWS))
    }

    /** One pass of the redraw loop: screen row `y` is to show line `i`. */
    method RedrawRow(ghost c: T.Console, i: int, y: nat)
      requires Valid() && y < ROWS && i < count + ROWS && T.ConsoleOk(c) && ScreenOnly(c)
      requires RowAt(screen[..], y) == c.screen[y]
      modifies screen
      ensures Valid() && ScreenOnly(c) && screen[..] == SetRow(old(screen[..]), y, T.ViewLine(c, i, y))
    {
      if i < 0 {
        Store(screen, COLS * y, COLS, T.GREY_SPACE);
      } else if i < count {
        CopyRow(ring, (writePos + RING - count + i) % RING, screen, y);
      } else if screenSaved {
        CopyRow(saved, i - count, screen, y);
      }
    }

    /** `scrollback_redraw`. */
    method Redraw()
      requires Valid()
      modifies screen
      ensures Valid() && State() == T.Redraw(old(State()))
    {
      if count == 0 {
        return;
      }
      RedrawRows();
      if offset > 0 {
        Mark();
      }
    }

    method RedrawStep(ghost c: T.Console, y: nat)
      requires Valid() && y < ROWS && T.ConsoleOk(c) && ScreenOnly(c) && Drawn(c, screen[..], y)
      modifies screen
      ensures Valid() && ScreenOnly(c) && Drawn(c, screen[..], y + 1)
    {
      var i := count - offset + y;
      DrawnStep(c, screen[..], y, i);
      RedrawRow(c, i, y);
    }

    method RedrawRows()
      requires Valid()
      modifies screen
      ensures Valid() && State() == old(State()).(screen := T.View(old(State())))
    {
      ghost var c := State();
      var y := 0;
      while y < ROWS
        invariant 0 <= y <= ROWS && ScreenOnly(c) && Drawn(c, screen[..], y)
      {
        RedrawStep(c, y);
        y := y + 1;
      }
      DrawnAll(c, screen[..]);
    }

    method Mark()
      requires Valid()
      modifies screen
      ensures Valid() && State() == old(State()).(screen := T.Marked(old(State()).screen))
    {
      GridOfCell(screen[..], ROWS, 0, COLS - 1, T.UP_MARK);
      screen[COLS - 1] := T.UP_MARK;
      GridOfCell(screen[..], ROWS, ROWS - 1, COLS - 1, T.DOWN_MARK);
      screen[COLS * (ROWS - 1) + COLS - 1] := T.DOWN_MARK;
    }

    /** `scrollback_scroll_up`. */
    method PageUp()
      requires Valid()
      modifies this`screenSaved, this`offset, saved, screen
      ensures Valid() && State() == T.PageUp(old(State()))
    {
      if count == 0 {
        return;
      }
      if offset == 0 {
        Save();
      }
      if offset < count {
        offset := offset + T.STEP;
        if offset > count {
          offset := count;
        }
        Redraw();
      }
    }

    /** `scrollback_scroll_down`. */
    method PageDown()
      requires Valid()
      modifies this`screenSaved, this`offset, screen
      ensures Valid() && State() == T.PageDown(old(State()))
    {
      if offset > 0 {
        offset := offset - T.STEP;
        if offset <= 0 {
          offset := 0;
          Restore();
        } else {
          Redraw();
        }
      }
    }

    /** `scrollback_reset`. */
    method Reset()
      requires Valid()
      modifies this`screenSaved, this`offset, screen
      ensures Valid() && State() == T.Reset(old(State()))
    {
      if offset > 0 {
        offset := 0;
        Restore();
      }
    }
  }
}
