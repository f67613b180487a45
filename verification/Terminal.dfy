/** The text console and its scrollback: a 25x80 screen, a ring of the last 500 lines that scrolled
    off, and the view that PgUp and PgDn move over both. Measured against a terminal that never
    forgets a line. */
module Terminal {
  import opened Machine

  const COLS := 80
  const ROWS := 25
  const RING := 500
  const STEP := 5              // lines per PgUp or PgDn

  const NEWLINE := 0x0A
  const RETURN := 0x0D
  const BACKSPACE := 0x08
  const SPACE := 0x20

  type Cell = nat
  type Row = r: seq<Cell> | |r| == COLS witness seq(COLS, _ => 0)

  const ZERO_ROW: Row := seq(COLS, _ => 0)

  /** A character with its attribute. */
  function Glyph(ch: byte, attr: byte): Cell {
    attr as int * 0x100 + ch as int
  }

  function Blank(attr: byte): Row {
    seq(COLS, _ => Glyph(SPACE, attr))
  }

  // ---------------------------------------------------------------- the terminal that forgets nothing

  /** All lines ever shown; the last 25 are the visible ones. `row` counts from the first line. */
  datatype Term = Term(lines: seq<Row>, row: nat, col: nat, attr: byte)

  predicate TermOk(t: Term) {
    ROWS <= |t.lines| && |t.lines| - ROWS <= t.row < |t.lines| && t.col < COLS
  }

  function PowerOn(attr: byte): Term {
    Term(seq(ROWS, _ => Blank(attr)), 0, 0, attr)
  }

  /** Moves to the start of the next line, which may have to be made first. */
  function LineFeed(t: Term): Term {
    Term(if t.row + 1 == |t.lines| then t.lines + [Blank(t.attr)] else t.lines, t.row + 1, 0, t.attr)
  }

  function Write(t: Term, col: nat, ch: byte): Term
    requires TermOk(t) && col < COLS
  {
    t.(lines := t.lines[t.row := t.lines[t.row][col := Glyph(ch, t.attr)]])
  }

  /** Writes and leaves the cursor there. */
  function WriteAt(t: Term, col: nat, ch: byte): Term
    requires TermOk(t) && col < COLS
  {
    Write(t, col, ch).(col := col)
  }

  function TermPut(t: Term, ch: byte): (r: Term)
    requires TermOk(t)
    ensures TermOk(r)
  {
    if ch == NEWLINE then LineFeed(t)
    else if ch == RETURN then t.(col := 0)
    else if ch == BACKSPACE then
      if t.col == 0 then t else WriteAt(t, t.col - 1, SPACE)
    else
      var w := Write(t, t.col, ch);
      if t.col + 1 < COLS then w.(col := t.col + 1) else LineFeed(w)
  }

  /** Clearing blanks the visible lines. */
  function TermClear(t: Term): (r: Term)
    requires TermOk(t)
    ensures TermOk(r)
  {
    var n := |t.lines| - ROWS;
    Term(t.lines[..n] + seq(ROWS, _ => Blank(t.attr)), n, 0, t.attr)
  }

  // ---------------------------------------------------------------- the console

  /** Screen and cursor of `io.asm`, ring and view of `scrollback.c`. */
  datatype Console = Console(
    screen: seq<Row>, row: nat, col: nat, attr: byte,
    ring: seq<Row>, writePos: nat, count: nat,
    offset: nat, saved: seq<Row>, screenSaved: bool)

  predicate ConsoleOk(c: Console) {
    && |c.screen| == |c.saved| == ROWS && c.row < ROWS && c.col < COLS
    && |c.ring| == RING && c.writePos < RING && c.count <= RING
  }

  /** `scrollback_capture_line`. */
  function Capture(c: Console): Console
    requires ConsoleOk(c)
  {
    c.(ring := c.ring[c.writePos := c.screen[0]], writePos := (c.writePos + 1) % RING,
       count := if c.count < RING then c.count + 1 else c.count)
  }

  /** `scroll_up`. */
  function ScrollUp(c: Console): Console
    requires ConsoleOk(c)
  {
    Capture(c).(screen := c.screen[1..] + [Blank(c.attr)])
  }

  /** The tail of `putc`: the next line, scrolling at the bottom. */
  function Advance(c: Console): Console
    requires ConsoleOk(c)
  {
    if c.row + 1 < ROWS then c.(row := c.row + 1, col := 0) else ScrollUp(c).(row := ROWS - 1, col := 0)
  }

  function Poke(c: Console, col: nat, ch: byte): Console
    requires ConsoleOk(c) && col < COLS
  {
    c.(screen := c.screen[c.row := c.screen[c.row][col := Glyph(ch, c.attr)]])
  }

  function PokeAt(c: Console, col: nat, ch: byte): Console
    requires ConsoleOk(c) && col < COLS
  {
    Poke(c, col, ch).(col := col)
  }

  /** `putc`. */
  function Putc(c: Console, ch: byte): (r: Console)
    requires ConsoleOk(c)
    ensures ConsoleOk(r)
  {
    if ch == NEWLINE then Advance(c)
    else if ch == RETURN then c.(col := 0)
    else if ch == BACKSPACE then
      if c.col == 0 then c else PokeAt(c, c.col - 1, SPACE)
    else
      var w := Poke(c, c.col, ch);
      if c.col + 1 < COLS then w.(col := c.col + 1) else Advance(w)
  }

  /** `cls`. */
  function Cls(c: Console): (r: Console)
    requires ConsoleOk(c)
    ensures ConsoleOk(r)
  {
    c.(screen := seq(ROWS, _ => Blank(c.attr)), row := 0, col := 0)
  }

  function Boot(attr: byte): (r: Console)
    ensures ConsoleOk(r)
  {
    var s := seq(ROWS, _ => Blank(attr));
    Console(s, 0, 0, attr, seq(RING, _ => ZERO_ROW), 0, 0, 0, s, false)
  }

  // ---------------------------------------------------------------- refinement

  /** Where the ring holds entry `k` of the last `count`. */
  function RingSlot(writePos: nat, count: nat, k: nat): (r: nat)
    requires count <= RING
    ensures r < RING
  {
    (writePos + RING - count + k) % RING
  }

  /** The captured lines, oldest first. */
  function History(ring: seq<Row>, writePos: nat, count: nat): (r: seq<Row>)
    requires |ring| == RING && count <= RING
    ensures |r| == count
  {
    if count == 0 then [] else [ring[RingSlot(writePos, count, 0)]] + History(ring, writePos, count - 1)
  }

  lemma {:induction false} HistoryAt(ring: seq<Row>, writePos: nat, count: nat, k: nat)
    requires |ring| == RING && k < count <= RING
    ensures History(ring, writePos, count)[k] == ring[RingSlot(writePos, count, k)]
  {
    if k > 0 {
      HistoryAt(ring, writePos, count - 1, k - 1);
    }
  }

  /** The screen that the console returns to. */
  function Live(c: Console): seq<Row> {
    if c.offset > 0 then c.saved else c.screen
  }

  /** Ring and live screen hold the last lines of the terminal, as many as they can. */
  ghost predicate Shows(c: Console, t: Term) {
    && ConsoleOk(c) && TermOk(t)
    && c.count == Min(RING, |t.lines| - ROWS)
    && c.row == t.row - (|t.lines| - ROWS) && c.col == t.col && c.attr == t.attr
    && Tail(History(c.ring, c.writePos, c.count), Live(c), t.lines)
  }

  /** The last lines, those of the history and those of the live screen. */
  ghost predicate Tail(history: seq<Row>, live: seq<Row>, lines: seq<Row>) {
    && |history| + ROWS <= |lines|
    && history == lines[|lines| - ROWS - |history|..|lines| - ROWS] && live == lines[|lines| - ROWS..]
  }

  lemma CaptureFills(ring: seq<Row>, writePos: nat, count: nat, line: Row)
    requires |ring| == RING && writePos < RING && count < RING
    ensures History(ring[writePos := line], (writePos + 1) % RING, count + 1) == History(ring, writePos, count) + [line]
  {
    var next := (writePos + 1) % RING;
    var now, was := History(ring[writePos := line], next, count + 1), History(ring, writePos, count);
    forall k | 0 <= k <= count ensures now[k] == (was + [line])[k] {
      HistoryAt(ring[writePos := line], next, count + 1, k);
      NextSlot(writePos, count, k);
      if k < count {
        HistoryAt(ring, writePos, count, k);
      }
    }
  }

  /** Where the entries are after one more was written: each where it was, the new one at the old
      write position. */
  lemma NextSlot(writePos: nat, count: nat, k: nat)
    requires writePos < RING && count < RING && k <= count
    ensures RingSlot((writePos + 1) % RING, count + 1, k) == RingSlot(writePos, count, k)
    ensures RingSlot(writePos, count, k) == writePos <==> k == count
  {
  }

  lemma CaptureWraps(ring: seq<Row>, writePos: nat, line: Row)
    requires |ring| == RING && writePos < RING
    ensures History(ring[writePos := line], (writePos + 1) % RING, RING) == History(ring, writePos, RING)[1..] + [line]
  {
    var next := (writePos + 1) % RING;
    var now, was := History(ring[writePos := line], next, RING), History(ring, writePos, RING);
    forall k | 0 <= k < RING ensures now[k] == (was[1..] + [line])[k] {
      HistoryAt(ring[writePos := line], next, RING, k);
      NextSlotFull(writePos, k);
      if k < RING - 1 {
        HistoryAt(ring, writePos, RING, k + 1);
      }
    }
  }

  lemma NextSlotFull(writePos: nat, k: nat)
    requires writePos < RING && k < RING
    ensures RingSlot((writePos + 1) % RING, RING, k) == RingSlot(writePos, RING, k + 1)
    ensures RingSlot(writePos, RING, k + 1) == writePos <==> k == RING - 1
  {
  }

  /** The history with one more line; the oldest leaves it when the ring is full. */
  function Joined(h: seq<Row>, line: Row): seq<Row> {
    (if |h| < RING then h else h[1..]) + [line]
  }

  /** A captured line joins the history. */
  lemma CaptureJoins(ring: seq<Row>, writePos: nat, count: nat, line: Row)
    requires |ring| == RING && writePos < RING && count <= RING
    ensures History(ring[writePos := line], (writePos + 1) % RING, if count < RING then count + 1 else count) ==
      Joined(History(ring, writePos, count), line)
  {
    if count < RING {
      CaptureFills(ring, writePos, count, line);
    } else {
      CaptureWraps(ring, writePos, line);
    }
  }

  lemma ShowsIff(r: Console, u: Term, history: seq<Row>, live: seq<Row>)
    requires ConsoleOk(r) && TermOk(u) && r.count == Min(RING, |u.lines| - ROWS)
    requires r.row == u.row - (|u.lines| - ROWS) && r.col == u.col && r.attr == u.attr
    requires history == History(r.ring, r.writePos, r.count) && live == Live(r)
    ensures Shows(r, u) <==> Tail(history, live, u.lines)
  {
  }

  lemma TailScrolls(h: seq<Row>, live: seq<Row>, lines: seq<Row>, blank: Row)
    requires Tail(h, live, lines) && |h| == Min(RING, |lines| - ROWS)
    ensures Tail(Joined(h, live[0]), live[1..] + [blank], lines + [blank])
  {
    var n, visible := |lines| - ROWS, live[1..] + [blank];
    FrontOf(lines, n, h);
    assert lines == lines[..n] + ([live[0]] + live[1..]);
    Rejoined(lines + [blank], n, lines[..n], live[0], visible);
    TailAfterCapture(h, lines[..n], live[0], live[0], visible, visible);
  }

  lemma ScrollShows(c: Console, t: Term)
    requires Shows(c, t) && c.offset == 0 && c.row == ROWS - 1
    ensures Shows(Advance(c), LineFeed(t))
  {
    ScrollTo(c, t, Advance(c), LineFeed(t));
  }

  lemma ScrollTo(c: Console, t: Term, r: Console, u: Term)
    requires Shows(c, t) && c.offset == 0 && c.row == ROWS - 1 && r == Advance(c) && u == LineFeed(t)
    ensures Shows(r, u)
  {
    var h, blank := History(c.ring, c.writePos, c.count), Blank(c.attr);
    CaptureJoins(c.ring, c.writePos, c.count, c.screen[0]);
    TailScrolls(h, c.screen, t.lines, blank);
    assert r.ring == c.ring[c.writePos := c.screen[0]] && r.writePos == (c.writePos + 1) % RING;
    ShowsIff(r, u, Joined(h, c.screen[0]), c.screen[1..] + [blank]);
  }

  lemma AdvanceShows(c: Console, t: Term)
    requires Shows(c, t) && c.offset == 0
    ensures Shows(Advance(c), LineFeed(t))
  {
    if c.row + 1 == ROWS {
      ScrollShows(c, t);
    }
  }

  lemma TailWrites(h: seq<Row>, live: seq<Row>, lines: seq<Row>, y: nat, row: Row)
    requires Tail(h, live, lines) && y < ROWS
    ensures live[y] == lines[|lines| - ROWS + y]
    ensures Tail(h, live[y := row], lines[|lines| - ROWS + y := row])
  {
    var n := |lines| - ROWS;
    var u := lines[n + y := row];
    assert live[y] == lines[n..][y];
    assert u[n - |h|..n] == lines[n - |h|..n] && u[n..] == lines[n..][y := row];
  }

  lemma PokeShows(c: Console, t: Term, col: nat, ch: byte)
    requires Shows(c, t) && c.offset == 0 && col < COLS
    ensures Shows(Poke(c, col, ch), Write(t, col, ch))
  {
    PokeTo(c, t, col, ch, c.col, Poke(c, col, ch), Write(t, col, ch));
  }

  /** A character written at `col`, and the cursor put at `to`. */
  lemma PokeTo(c: Console, t: Term, col: nat, ch: byte, to: nat, r: Console, u: Term)
    requires Shows(c, t) && c.offset == 0 && col < COLS && to < COLS
    requires r == Poke(c, col, ch).(col := to) && u == Write(t, col, ch).(col := to)
    ensures Shows(r, u)
  {
    var h, row := History(c.ring, c.writePos, c.count), c.screen[c.row][col := Glyph(ch, c.attr)];
    TailWrites(h, c.screen, t.lines, c.row, row);
    ShowsIff(r, u, h, c.screen[c.row := row]);
  }

  lemma ColumnShows(c: Console, t: Term, col: nat)
    requires Shows(c, t) && col < COLS
    ensures Shows(c.(col := col), t.(col := col))
  {
    ShowsIff(c.(col := col), t.(col := col), History(c.ring, c.writePos, c.count), Live(c));
  }

  lemma GlyphShows(c: Console, t: Term, ch: byte)
    requires Shows(c, t) && c.offset == 0 && ch != NEWLINE && ch != RETURN && ch != BACKSPACE
    ensures Shows(Putc(c, ch), TermPut(t, ch))
  {
    PokeShows(c, t, c.col, ch);
    MovedOn(Poke(c, c.col, ch), Write(t, t.col, ch), t.col + 1);
  }

  lemma MovedOn(c: Console, t: Term, col: nat)
    requires Shows(c, t) && c.offset == 0 && col <= COLS
    ensures if col < COLS then Shows(c.(col := col), t.(col := col)) else Shows(Advance(c), LineFeed(t))
  {
    if col < COLS {
      ColumnShows(c, t, col);
    } else {
      AdvanceShows(c, t);
    }
  }

  lemma BackspaceShows(c: Console, t: Term)
    requires Shows(c, t) && c.offset == 0
    ensures Shows(Putc(c, BACKSPACE), TermPut(t, BACKSPACE))
  {
    if c.col > 0 {
      PokeTo(c, t, c.col - 1, SPACE, c.col - 1, Putc(c, BACKSPACE), TermPut(t, BACKSPACE));
    }
  }

  /** What `putc` does to ring and screen is what the terminal does to its lines. */
  lemma PutShows(c: Console, t: Term, ch: byte)
    requires Shows(c, t) && c.offset == 0
    ensures Shows(Putc(c, ch), TermPut(t, ch))
  {
    if ch == NEWLINE {
      AdvanceShows(c, t);
    } else if ch == RETURN {
      ColumnShows(c, t, 0);
    } else if ch != BACKSPACE {
      GlyphShows(c, t, ch);
    } else {
      BackspaceShows(c, t);
    }
  }

  lemma ClearShows(c: Console, t: Term)
    requires Shows(c, t) && c.offset == 0
    ensures Shows(Cls(c), TermClear(t))
  {
    var n, u := |t.lines| - ROWS, TermClear(t);
    assert u.lines[n - c.count..n] == t.lines[n - c.count..n];
    assert u.lines[n..] == Cls(c).screen;
    ShowsIff(Cls(c), u, History(c.ring, c.writePos, c.count), Cls(c).screen);
  }

  // ---------------------------------------------------------------- the view

  const UP_MARK := 0x4E00 + 0x5E       // a red ^ at the top right
  const DOWN_MARK := 0x4E00 + 0x76     // a red v at the bottom right

  const GREY_SPACE := 0x0720

  /** What the redraw loop puts into screen row `y`, which is to show line `i` of ring and saved
      screen together. Without a saved screen the row is left as it is. */
  function ViewLine(c: Console, i: int, y: nat): Row
    requires ConsoleOk(c) && y < ROWS && i < c.count + ROWS
  {
    if i < 0 then seq(COLS, _ => GREY_SPACE)
    else if i < c.count then c.ring[RingSlot(c.writePos, c.count, i)]
    else if c.screenSaved then c.saved[i - c.count] else c.screen[y]
  }

  function Marked(s: seq<Row>): (r: seq<Row>)
    requires |s| == ROWS
    ensures |r| == ROWS
  {
    s[0 := s[0][COLS - 1 := UP_MARK]][ROWS - 1 := s[ROWS - 1][COLS - 1 := DOWN_MARK]]
  }

  /** `scrollback_redraw`. */
  function Redraw(c: Console): (r: Console)
    requires ConsoleOk(c)
    ensures ConsoleOk(r)
  {
    if c.count == 0 then c else
    var rows := View(c);
    c.(screen := if c.offset > 0 then Marked(rows) else rows)
  }

  function View(c: Console): (r: seq<Row>)
    requires ConsoleOk(c)
    ensures |r| == ROWS
  {
    seq<Row>(ROWS, y requires 0 <= y < ROWS => ViewLine(c, c.count - c.offset + y, y))
  }

  function Save(c: Console): Console {
    if c.screenSaved then c else c.(saved := c.screen, screenSaved := true)
  }

  function Restore(c: Console): Console {
    if c.screenSaved then c.(screen := c.saved, screenSaved := false) else c
  }

  /** `scrollback_scroll_up`. */
  function PageUp(c: Console): (r: Console)
    requires ConsoleOk(c) && c.offset <= c.count
    ensures ConsoleOk(r) && r.offset <= r.count
  {
    if c.count == 0 then c else
    var s := if c.offset == 0 then Save(c) else c;
    if s.offset < s.count then Redraw(s.(offset := Min(s.offset + STEP, s.count))) else s
  }

  /** `scrollback_scroll_down`. */
  function PageDown(c: Console): (r: Console)
    requires ConsoleOk(c) && c.offset <= c.count
    ensures ConsoleOk(r) && r.offset <= r.count
  {
    if c.offset == 0 then c
    else if c.offset <= STEP then Restore(c.(offset := 0))
    else Redraw(c.(offset := c.offset - STEP))
  }

  /** `scrollback_reset`. */
  function Reset(c: Console): (r: Console)
    requires ConsoleOk(c) && c.offset <= c.count
    ensures ConsoleOk(r) && r.offset == 0
  {
    if c.offset > 0 then Restore(c.(offset := 0)) else c
  }

  /** The 25 lines that end `offset` lines before the bottom of ring and live screen. */
  function Window(c: Console, offset: nat): (r: seq<Row>)
    requires ConsoleOk(c) && offset <= c.count
    ensures |r| == ROWS
  {
    (History(c.ring, c.writePos, c.count) + Live(c))[c.count - offset..c.count - offset + ROWS]
  }

  /** A screen is saved exactly while scrolled back, and then the display is the marked window. */
  ghost predicate ViewOk(c: Console) {
    && ConsoleOk(c) && c.offset <= c.count
    && (c.screenSaved <==> c.offset > 0)
    && (c.offset > 0 ==> c.screen == Marked(Window(c, c.offset)))
  }

  lemma ViewIsWindow(c: Console)
    requires ConsoleOk(c) && 0 < c.offset <= c.count && c.screenSaved
    ensures View(c) == Window(c, c.offset)
  {
    var h := History(c.ring, c.writePos, c.count);
    var w := Window(c, c.offset);
    forall y | 0 <= y < ROWS ensures View(c)[y] == w[y] {
      var i := c.count - c.offset + y;
      assert w[y] == (h + c.saved)[i];
      if i < c.count {
        HistoryAt(c.ring, c.writePos, c.count, i);
      }
      assert ViewLine(c, i, y) == if i < c.count then h[i] else c.saved[i - c.count];
    }
  }

  lemma RedrawShowsWindow(c: Console)
    requires ConsoleOk(c) && 0 < c.offset <= c.count && c.screenSaved
    ensures Redraw(c).screen == Marked(Window(c, c.offset))
    ensures Redraw(c) == c.(screen := Redraw(c).screen)
  {
    ViewIsWindow(c);
  }

  datatype Key = Up | Down | Home

  function Press(c: Console, k: Key): (r: Console)
    requires ConsoleOk(c) && c.offset <= c.count
    ensures ConsoleOk(r) && r.offset <= r.count
  {
    match k
    case Up => PageUp(c)
    case Down => PageDown(c)
    case Home => Reset(c)
  }

  /** All that scrolling leaves alone. */
  predicate SameLive(c: Console, r: Console) {
    && Live(r) == Live(c) && r.ring == c.ring && r.writePos == c.writePos && r.count == c.count
    && r.row == c.row && r.col == c.col && r.attr == c.attr
  }

  lemma UpKeepsView(c: Console)
    requires ViewOk(c)
    ensures ViewOk(PageUp(c)) && SameLive(c, PageUp(c))
  {
    if c.offset < c.count {
      var s := if c.offset == 0 then Save(c) else c;
      var d := s.(offset := Min(s.offset + STEP, s.count));
      RedrawShowsWindow(d);
      assert PageUp(c) == Redraw(d);
    }
  }

  lemma DownKeepsView(c: Console)
    requires ViewOk(c)
    ensures ViewOk(PageDown(c)) && SameLive(c, PageDown(c))
  {
    if c.offset > STEP {
      RedrawShowsWindow(c.(offset := c.offset - STEP));
    }
  }

  /** No key changes the ring, the cursor or the live screen, and each keeps the view in order. */
  lemma PressKeepsView(c: Console, k: Key)
    requires ViewOk(c)
    ensures ViewOk(Press(c, k)) && SameLive(c, Press(c, k))
  {
    match k
    case Up => UpKeepsView(c);
    case Down => DownKeepsView(c);
    case Home =>
  }

  function PressAll(c: Console, ks: seq<Key>): (r: Console)
    requires ConsoleOk(c) && c.offset <= c.count
    ensures ConsoleOk(r) && r.offset <= r.count
  {
    if ks == [] then c else Press(PressAll(c, ks[..|ks| - 1]), ks[|ks| - 1])
  }

  /** Over every run of scroll keys: while scrolled back the display is the window at that offset,
      with the two marks, and back at offset 0 it is the original screen again. */
  lemma {:induction false} ScrollingRestores(c: Console, ks: seq<Key>)
    requires ViewOk(c)
    ensures var r := PressAll(c, ks);
      && ViewOk(r) && SameLive(c, r)
      && (r.offset == 0 ==> r.screen == Live(c))
      && (r.offset > 0 ==> r.screen == Marked(Window(c, r.offset)))
  {
    if ks != [] {
      var n := |ks| - 1;
      ScrollingRestores(c, ks[..n]);
      PressKeepsView(PressAll(c, ks[..n]), ks[n]);
    }
    ViewOfLive(c, PressAll(c, ks));
  }

  lemma ViewOfLive(c: Console, r: Console)
    requires ViewOk(c) && ViewOk(r) && SameLive(c, r)
    ensures r.offset == 0 ==> r.screen == Live(c)
    ensures r.offset > 0 ==> r.screen == Marked(Window(c, r.offset))
  {
  }

  // ---------------------------------------------------------------- whole runs

  datatype Op = Put(ch: byte) | Attr(attr: byte) | Clear | Scroll(key: Key)

  function Apply(c: Console, op: Op): (r: Console)
    requires ConsoleOk(c) && c.offset <= c.count
    ensures ConsoleOk(r) && r.offset <= r.count
  {
    match op
    case Put(ch) => Putc(c, ch)
    case Attr(a) => c.(attr := a)
    case Clear => Cls(c)
    case Scroll(k) => Press(c, k)
  }

  /** The terminal does not know about scrolling back. */
  function TermApply(t: Term, op: Op): (r: Term)
    requires TermOk(t)
    ensures TermOk(r)
  {
    match op
    case Put(ch) => TermPut(t, ch)
    case Attr(a) => t.(attr := a)
    case Clear => TermClear(t)
    case Scroll(_) => t
  }

  function Run(c: Console, ops: seq<Op>): (r: Console)
    requires ConsoleOk(c) && c.offset <= c.count
    ensures ConsoleOk(r) && r.offset <= r.count
  {
    if ops == [] then c else Apply(Run(c, ops[..|ops| - 1]), ops[|ops| - 1])
  }

  function TermRun(t: Term, ops: seq<Op>): (r: Term)
    requires TermOk(t)
    ensures TermOk(r)
  {
    if ops == [] then t else TermApply(TermRun(t, ops[..|ops| - 1]), ops[|ops| - 1])
  }

  /** Output happens only on the live screen. */
  predicate Calm(c: Console, op: Op) {
    op.Scroll? || c.offset == 0
  }

  lemma OutputKeepsView(c: Console, op: Op)
    requires ViewOk(c) && c.offset == 0 && !op.Scroll?
    ensures ViewOk(Apply(c, op))
  {
  }

  lemma ScrollKeepsShows(c: Console, t: Term, r: Console)
    requires Shows(c, t) && ConsoleOk(r) && SameLive(c, r)
    ensures Shows(r, t)
  {
  }

  lemma OpShows(c: Console, t: Term, op: Op)
    requires Shows(c, t) && ViewOk(c) && Calm(c, op)
    ensures Shows(Apply(c, op), TermApply(t, op)) && ViewOk(Apply(c, op))
  {
    if op.Scroll? {
      PressKeepsView(c, op.key);
      ScrollKeepsShows(c, t, Press(c, op.key));
    } else {
      OutputKeepsView(c, op);
      OutputShows(c, t, op);
    }
  }

  lemma OutputShows(c: Console, t: Term, op: Op)
    requires Shows(c, t) && c.offset <= c.count && c.offset == 0 && !op.Scroll?
    ensures Shows(Apply(c, op), TermApply(t, op))
  {
    match op
    case Put(ch) => PutShows(c, t, ch);
    case Attr(a) =>
    case Clear => ClearShows(c, t);
  }

  lemma BootShows(attr: byte)
    ensures Shows(Boot(attr), PowerOn(attr)) && ViewOk(Boot(attr))
  {
  }

  /** For every run of output, clearing and scrolling in which output meets the live screen: ring and
      live screen together are the last lines, at most 525, of the terminal fed the same output, and
      the cursor is inside 80x25. */
  lemma {:induction false} ConsoleRefinesTerminal(attr: byte, ops: seq<Op>)
    requires forall n :: 0 <= n < |ops| ==> Calm(Run(Boot(attr), ops[..n]), ops[n])
    ensures Shows(Run(Boot(attr), ops), TermRun(PowerOn(attr), ops)) && ViewOk(Run(Boot(attr), ops))
  {
    if ops == [] {
      BootShows(attr);
    } else {
      var n := |ops| - 1;
      var before := ops[..n];
      forall m | 0 <= m < n ensures Calm(Run(Boot(attr), before[..m]), before[m]) {
        assert before[..m] == ops[..m];
      }
      ConsoleRefinesTerminal(attr, before);
      OpShows(Run(Boot(attr), before), TermRun(PowerOn(attr), before), ops[n]);
    }
  }

  /** The 25 lines that end `offset` lines before the last. */
  function Slice(lines: seq<Row>, offset: nat): (r: seq<Row>)
    requires offset + ROWS <= |lines|
    ensures |r| == ROWS
  {
    lines[|lines| - ROWS - offset..|lines| - offset]
  }

  /** The display is a window of all the terminal's lines, marked when it is not the last one. */
  ghost predicate Displays(c: Console, lines: seq<Row>) {
    && ROWS <= |lines| && c.offset <= c.count == Min(RING, |lines| - ROWS)
    && c.screen == if c.offset > 0 then Marked(Slice(lines, c.offset)) else Slice(lines, 0)
  }

  /** So what is on display after any such run is a window of the terminal's lines. */
  lemma DisplayIsWindow(attr: byte, ops: seq<Op>)
    requires forall n :: 0 <= n < |ops| ==> Calm(Run(Boot(attr), ops[..n]), ops[n])
    ensures Displays(Run(Boot(attr), ops), TermRun(PowerOn(attr), ops).lines)
  {
    ConsoleRefinesTerminal(attr, ops);
    WindowOfLines(Run(Boot(attr), ops), TermRun(PowerOn(attr), ops));
  }

  lemma WindowOfLines(c: Console, t: Term)
    requires Shows(c, t) && ViewOk(c)
    ensures Displays(c, t.lines)
  {
    TailSlice(History(c.ring, c.writePos, c.count), Live(c), t.lines, c.offset);
    DisplaysIs(c, t.lines, if c.offset > 0 then Window(c, c.offset) else c.screen);
  }

  lemma DisplaysIs(c: Console, lines: seq<Row>, w: seq<Row>)
    requires ROWS <= |lines| && c.offset <= c.count == Min(RING, |lines| - ROWS) && w == Slice(lines, c.offset)
    requires c.screen == if c.offset > 0 then Marked(w) else w
    ensures Displays(c, lines)
  {
  }

  /** A window of history and live screen is a slice of the lines they end. */
  lemma TailSlice(h: seq<Row>, live: seq<Row>, lines: seq<Row>, offset: nat)
    requires Tail(h, live, lines) && offset <= |h|
    ensures |live| == ROWS
    ensures (h + live)[|h| - offset..|h| - offset + ROWS] == Slice(lines, offset)
    ensures live == Slice(lines, 0)
  {
    var n := |lines| - ROWS;
    assert h + live == lines[n - |h|..];
  }

  // ---------------------------------------------------------------- output while scrolled back

  predicate IsGlyph(ch: byte) {
    ch != NEWLINE && ch != RETURN && ch != BACKSPACE
  }

  /** The character makes the screen scroll. */
  predicate Scrolls(c: Console, ch: byte) {
    c.row + 1 == ROWS && (ch == NEWLINE || (IsGlyph(ch) && c.col + 1 == COLS))
  }

  /** Where a character is written; nowhere for line ends and at the left margin. */
  function Target(c: Console, ch: byte): Option<nat> {
    if IsGlyph(ch) then Some(c.col) else if ch == BACKSPACE && c.col > 0 then Some(c.col - 1) else None
  }

  function Printed(c: Console, ch: byte): Cell {
    Glyph(if ch == BACKSPACE then SPACE else ch, c.attr)
  }

  /** The live screen as it would be with the character on it, before any scroll. */
  function WithChar(c: Console, ch: byte): (r: seq<Row>)
    requires ConsoleOk(c)
    ensures |r| == ROWS
  {
    match Target(c, ch)
    case None => c.saved
    case Some(x) => c.saved[c.row := c.saved[c.row][x := Printed(c, ch)]]
  }

  /** Output that does no harm while scrolled back. Short of a scroll: the live screen has that character
      in that place already. With one: the line on display at the top is the live one, and the live screen
      is what scrolling it would make of it. */
  predicate Harmless(c: Console, op: Op)
    requires ConsoleOk(c)
  {
    match op
    case Put(ch) =>
      if Scrolls(c, ch) then c.screen[0] == c.saved[0] && WithChar(c, ch)[1..] + [Blank(c.attr)] == c.saved
      else Target(c, ch).Some? ==> c.saved[c.row][Target(c, ch).value] == Printed(c, ch)
    case Attr(_) => true
    case Clear => c.saved == seq(ROWS, _ => Blank(c.attr))
    case Scroll(_) => true
  }

  lemma SameCell(s: seq<Row>, y: nat, x: nat, v: Cell)
    requires y < |s| && x < COLS
    ensures s[y := s[y][x := v]] == s <==> s[y][x] == v
  {
    var row := s[y][x := v];
    assert s[y := row][y][x] == v;
    if s[y][x] == v {
      assert row == s[y];
    }
  }

  /** The cursors agree. */
  predicate SameCursor(c: Console, t: Term) {
    TermOk(t) && c.row == t.row - (|t.lines| - ROWS) && c.col == t.col && c.attr == t.attr
  }

  /** What a character does to the terminal, short of a scroll. */
  lemma TermAfter(c: Console, t: Term, ch: byte, u: Term)
    requires ConsoleOk(c) && SameCursor(c, t) && !Scrolls(c, ch) && u == TermPut(t, ch)
    ensures SameCursor(Putc(c, ch), u) && |u.lines| == |t.lines|
    ensures u.lines == match Target(c, ch)
      case None => t.lines
      case Some(x) => t.lines[t.row := t.lines[t.row][x := Printed(c, ch)]]
  {
  }

  lemma WriteVisible(lines: seq<Row>, n: nat, row: nat, line: Row)
    requires n <= row < |lines|
    ensures lines[row := line][..n] == lines[..n] && lines[row := line][n..] == lines[n..][row - n := line]
  {
  }

  lemma PutKeptIff(c: Console, t: Term, ch: byte)
    requires Shows(c, t) && c.offset > 0 && !Scrolls(c, ch)
    ensures Shows(Putc(c, ch), TermPut(t, ch)) <==> Harmless(c, Put(ch))
  {
    PutTo(c, t, ch, Putc(c, ch), TermPut(t, ch));
    if Target(c, ch).Some? {
      SameCell(c.saved, c.row, Target(c, ch).value, Printed(c, ch));
    }
  }

  lemma PutTo(c: Console, t: Term, ch: byte, r: Console, u: Term)
    requires Shows(c, t) && c.offset > 0 && !Scrolls(c, ch) && r == Putc(c, ch) && u == TermPut(t, ch)
    ensures Shows(r, u) <==> c.saved == WithChar(c, ch)
  {
    var h := History(c.ring, c.writePos, c.count);
    TermAfter(c, t, ch, u);
    RingKept(c, ch, r);
    ShowsIff(r, u, h, c.saved);
    TailOfChar(c, t, ch, u, h);
    TailUnique(h, c.saved, WithChar(c, ch), u.lines);
  }

  lemma RingKept(c: Console, ch: byte, r: Console)
    requires ConsoleOk(c) && c.offset > 0 && !Scrolls(c, ch) && r == Putc(c, ch)
    ensures r.ring == c.ring && r.writePos == c.writePos && r.count == c.count && Live(r) == c.saved
  {
  }

  lemma TailOfChar(c: Console, t: Term, ch: byte, u: Term, h: seq<Row>)
    requires ConsoleOk(c) && SameCursor(c, t) && Tail(h, c.saved, t.lines) && |u.lines| == |t.lines|
    requires u.lines == match Target(c, ch)
      case None => t.lines
      case Some(x) => t.lines[t.row := t.lines[t.row][x := Printed(c, ch)]]
    ensures Tail(h, WithChar(c, ch), u.lines)
  {
    if Target(c, ch).Some? {
      TailWrites(h, c.saved, t.lines, c.row, c.saved[c.row][Target(c, ch).value := Printed(c, ch)]);
    }
  }

  lemma TailUnique(h: seq<Row>, a: seq<Row>, b: seq<Row>, lines: seq<Row>)
    requires Tail(h, b, lines)
    ensures Tail(h, a, lines) <==> a == b
  {
  }

  /** A scroll captures the line on display, marked as it is, and leaves the live screen alone. */
  lemma ScrollCapturesDisplay(c: Console, ch: byte)
    requires ViewOk(c) && c.offset > 0 && Scrolls(c, ch)
    ensures var r, h := Putc(c, ch), History(c.ring, c.writePos, c.count);
      && History(r.ring, r.writePos, r.count) == Joined(h, c.screen[0])
      && c.screen[0] == Window(c, c.offset)[0][COLS - 1 := UP_MARK]
      && Live(r) == Live(c) && Reset(r).screen == c.saved
  {
    ScrolledRing(c, ch, Putc(c, ch));
    CaptureJoins(c.ring, c.writePos, c.count, c.screen[0]);
  }

  lemma ScrolledRing(c: Console, ch: byte, r: Console)
    requires ConsoleOk(c) && Scrolls(c, ch) && r == Putc(c, ch)
    ensures r.ring == c.ring[c.writePos := c.screen[0]] && r.writePos == (c.writePos + 1) % RING
    ensures r.count == (if c.count < RING then c.count + 1 else c.count)
    ensures r.offset == c.offset && r.saved == c.saved && r.screenSaved == c.screenSaved
  {
    var w := if IsGlyph(ch) then Poke(c, c.col, ch) else c;
    assert w.screen[0] == c.screen[0];
    assert r == ScrollUp(w).(row := ROWS - 1, col := 0);
  }

  lemma TermAfterScroll(c: Console, t: Term, ch: byte)
    requires Shows(c, t) && c.offset > 0 && Scrolls(c, ch)
    ensures var u, n := TermPut(t, ch), |t.lines| - ROWS;
      && |u.lines| == |t.lines| + 1 && u.lines[..n] == t.lines[..n] && u.lines[n] == c.saved[0]
      && u.lines[n + 1..] == WithChar(c, ch)[1..] + [Blank(c.attr)]
      && u.row - (n + 1) == ROWS - 1 && u.col == 0 && u.attr == c.attr
  {
    var n, blank := |t.lines| - ROWS, Blank(c.attr);
    assert c.saved[c.row] == t.lines[n..][t.row - n] == t.lines[t.row];
    var w := if IsGlyph(ch) then Write(t, t.col, ch) else t;
    if IsGlyph(ch) {
      WriteVisible(t.lines, n, t.row, t.lines[t.row][t.col := Glyph(ch, t.attr)]);
    }
    assert w.lines[n..] == WithChar(c, ch) && w.lines[..n] == t.lines[..n];
    assert WithChar(c, ch)[0] == c.saved[0];
    assert TermPut(t, ch) == LineFeed(w) && LineFeed(w).lines == w.lines + [blank];
    Appended(w.lines, n, blank);
  }

  lemma Appended(lines: seq<Row>, n: nat, blank: Row)
    requires n < |lines|
    ensures var u := lines + [blank];
      u[..n] == lines[..n] && u[n] == lines[n..][0] && u[n + 1..] == lines[n..][1..] + [blank]
  {
  }

  /** The history after a capture is the terminal's, exactly when the line captured is. */
  lemma JoinedIff(h: seq<Row>, front: seq<Row>, line: Row, next: Row)
    requires |h| == Min(RING, |front|) && h == front[|front| - |h|..]
    ensures var all, k := front + [next], |Joined(h, line)|; Joined(h, line) == all[|all| - k..] <==> line == next
  {
    var all, k := front + [next], |Joined(h, line)|;
    assert all[|all| - k..] == Joined(h, next);
    assert Joined(h, line)[k - 1] == line && Joined(h, next)[k - 1] == next;
  }

  lemma TailAfterCapture(h: seq<Row>, front: seq<Row>, line: Row, next: Row, live: seq<Row>, visible: seq<Row>)
    requires |h| == Min(RING, |front|) && h == front[|front| - |h|..] && |visible| == ROWS
    ensures Tail(Joined(h, line), live, front + [next] + visible) <==> line == next && live == visible
  {
    var all, k, lines := front + [next], |Joined(h, line)|, front + [next] + visible;
    JoinedIff(h, front, line, next);
    assert lines[|lines| - ROWS..] == visible;
    assert lines[|lines| - ROWS - k..|lines| - ROWS] == all[|all| - k..];
  }

  lemma ScrollKeptIff(c: Console, t: Term, ch: byte)
    requires Shows(c, t) && ViewOk(c) && c.offset > 0 && Scrolls(c, ch)
    ensures Shows(Putc(c, ch), TermPut(t, ch)) <==> Harmless(c, Put(ch))
  {
    var n, u, r := |t.lines| - ROWS, TermPut(t, ch), Putc(c, ch);
    TermAfterScroll(c, t, ch);
    ScrollCapturesDisplay(c, ch);
    ScrolledCursor(c, ch);
    var h, front, visible := History(c.ring, c.writePos, c.count), t.lines[..n], WithChar(c, ch)[1..] + [Blank(c.attr)];
    FrontOf(t.lines, n, h);
    Rejoined(u.lines, n, front, c.saved[0], visible);
    TailAfterCapture(h, front, c.screen[0], c.saved[0], c.saved, visible);
    ShowsIff(r, u, Joined(h, c.screen[0]), c.saved);
  }

  lemma FrontOf(lines: seq<Row>, n: nat, h: seq<Row>)
    requires |h| <= n <= |lines| && h == lines[n - |h|..n]
    ensures h == lines[..n][n - |h|..]
  {
  }

  lemma Rejoined(u: seq<Row>, n: nat, front: seq<Row>, next: Row, visible: seq<Row>)
    requires n < |u| && u[..n] == front && u[n] == next && u[n + 1..] == visible
    ensures u == front + [next] + visible
  {
  }

  lemma ScrolledCursor(c: Console, ch: byte)
    requires ConsoleOk(c) && Scrolls(c, ch)
    ensures var r := Putc(c, ch);
      r.row == ROWS - 1 && r.col == 0 && r.attr == c.attr && r.count == if c.count < RING then c.count + 1 else c.count
  {
  }

  lemma ClearKeptIff(c: Console, t: Term)
    requires Shows(c, t) && c.offset > 0
    ensures Shows(Cls(c), TermClear(t)) <==> Harmless(c, Clear)
  {
    var n, u := |t.lines| - ROWS, TermClear(t);
    assert u.lines[n - c.count..n] == t.lines[n - c.count..n];
    assert u.lines[n..] == seq(ROWS, _ => Blank(t.attr));
  }

  /** Output while scrolled back keeps ring and live screen the terminal's last lines exactly when it is
      harmless: otherwise it is lost, or the ring gets a line that the terminal never had. */
  lemma OutputKeptIff(c: Console, t: Term, op: Op)
    requires Shows(c, t) && ViewOk(c) && c.offset > 0 && !op.Scroll?
    ensures Shows(Apply(c, op), TermApply(t, op)) <==> Harmless(c, op)
  {
    match op
    case Put(ch) =>
      if Scrolls(c, ch) {
        ScrollKeptIff(c, t, ch);
      } else {
        PutKeptIff(c, t, ch);
      }
    case Attr(a) =>
    case Clear => ClearKeptIff(c, t);
  }

  lemma {:induction false} FixedByScroll(s: seq<Row>, last: Row, k: nat)
    requires |s| == ROWS && s[1..] + [last] == s && k < ROWS
    ensures s[ROWS - 1 - k] == last
  {
    if k > 0 {
      FixedByScroll(s, last, k - 1);
      assert (s[1..] + [last])[ROWS - 1 - k] == s[ROWS - k];
    } else {
      assert (s[1..] + [last])[ROWS - 1] == last;
    }
  }

  /** A line feed that scrolls is never harmless: the mark at the top right is on no blank line. */
  lemma LineFeedHarms(c: Console)
    requires ViewOk(c) && c.offset > 0 && Scrolls(c, NEWLINE)
    ensures !Harmless(c, Put(NEWLINE))
  {
    assert c.screen[0][COLS - 1] == UP_MARK;
    assert Blank(c.attr)[COLS - 1] == Glyph(SPACE, c.attr);
    if Harmless(c, Put(NEWLINE)) {
      FixedByScroll(c.saved, Blank(c.attr), ROWS - 1);
    }
  }
}
