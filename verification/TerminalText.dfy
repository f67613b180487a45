/** What a reader of the display sees: the characters and attributes in the cells, and where the text that
    is put out goes. */
module TerminalText {
  import opened Machine
  import opened Terminal

  // ---------------------------------------------------------------- cells

  /** A cell as the display reads it: the character in the low byte, the attribute in the high byte. */
  function CharOf(cell: Cell): nat { cell % 0x100 }
  function AttrOf(cell: Cell): nat { cell / 0x100 }

  /** A cell that is written reads back. */
  lemma GlyphReads(ch: byte, attr: byte)
    ensures CharOf(Glyph(ch, attr)) == ch && AttrOf(Glyph(ch, attr)) == attr
  {
  }

  /** The row shows `text` from the left margin and spaces after it, all in one attribute. */
  predicate RowShows(row: Row, text: seq<byte>, attr: byte) {
    && |text| <= COLS
    && forall x :: 0 <= x < COLS ==>
         CharOf(row[x]) == (if x < |text| then text[x] else 0x20) && AttrOf(row[x]) == attr
  }

  lemma BlankShows(attr: byte)
    ensures RowShows(Blank(attr), [], attr)
  {
    GlyphReads(SPACE, attr);
  }

  lemma GlyphAppended(row: Row, text: seq<byte>, attr: byte, ch: byte)
    requires RowShows(row, text, attr) && |text| < COLS
    ensures RowShows(row[|text| := Glyph(ch, attr)], text + [ch], attr)
  {
    GlyphReads(ch, attr);
  }

  /** The marks are a `^` and a `v` at the right margin, in yellow on red; every other cell is as it was. */
  lemma MarksShow(s: seq<Row>, y: nat, x: nat)
    requires |s| == ROWS && y < ROWS && x < COLS
    ensures var cell := Marked(s)[y][x];
      if x == COLS - 1 && (y == 0 || y == ROWS - 1)
      then CharOf(cell) == (if y == 0 then '^' as int else 'v' as int) && AttrOf(cell) == 0x4E
      else cell == s[y][x]
  {
  }

  // ---------------------------------------------------------------- text and its layout

  /** The lines of a text. */
  function SplitLines(text: seq<byte>): (ls: seq<seq<byte>>)
    ensures |ls| >= 1
  {
    if text == [] then [[]] else
    var n := |text| - 1;
    var ls := SplitLines(text[..n]);
    if text[n] == 0x0A then ls + [[]] else ls[|ls| - 1 := ls[|ls| - 1] + [text[n]]]
  }

  /** Lines with a line feed between any two. */
  function JoinLines(ls: seq<seq<byte>>): seq<byte> {
    if ls == [] then [] else if |ls| == 1 then ls[0] else JoinLines(ls[..|ls| - 1]) + [0x0A] + ls[|ls| - 1]
  }

  lemma JoinExtended(ls: seq<seq<byte>>, ch: byte)
    requires ls != []
    ensures JoinLines(ls[|ls| - 1 := ls[|ls| - 1] + [ch]]) == JoinLines(ls) + [ch]
  {
    var n := |ls| - 1;
    var r := ls[n := ls[n] + [ch]];
    if n > 0 {
      assert r[..n] == ls[..n];
    }
  }

  lemma JoinSnoc(ls: seq<seq<byte>>)
    requires ls != []
    ensures JoinLines(ls + [[]]) == JoinLines(ls) + [0x0A]
  {
    assert (ls + [[]])[..|ls|] == ls;
    assert JoinLines(ls) + [0x0A] + [] == JoinLines(ls) + [0x0A];
  }

  /** Splitting loses nothing. */
  lemma {:induction false} SplitJoins(text: seq<byte>)
    ensures JoinLines(SplitLines(text)) == text
  {
    if text != [] {
      var n := |text| - 1;
      var front := text[..n];
      SplitJoins(front);
      assert text == front + [text[n]];
      if text[n] == 0x0A {
        JoinSnoc(SplitLines(front));
      } else {
        JoinExtended(SplitLines(front), text[n]);
      }
    }
  }

  /** And leaves no line feed in a line. */
  lemma {:induction false} NoFeedInside(text: seq<byte>, k: nat)
    requires k < |SplitLines(text)|
    ensures 0x0A !in SplitLines(text)[k]
  {
    if text != [] {
      var n := |text| - 1;
      var ls := SplitLines(text[..n]);
      if k < |ls| {
        NoFeedInside(text[..n], k);
      }
    }
  }

  /** A line in pieces of 80, the last of them shorter. */
  function Wrapped(line: seq<byte>): (ls: seq<seq<byte>>)
    ensures |ls| >= 1 && |ls[|ls| - 1]| < COLS
    ensures forall k :: 0 <= k < |ls| ==> |ls[k]| <= COLS
  {
    if |line| < COLS then [line] else [line[..COLS]] + Wrapped(line[COLS..])
  }

  function AllWrapped(ls: seq<seq<byte>>): (r: seq<seq<byte>>)
    ensures ls != [] ==> r != [] && |r[|r| - 1]| < COLS
    ensures forall k :: 0 <= k < |r| ==> |r[k]| <= COLS
  {
    if ls == [] then [] else AllWrapped(ls[..|ls| - 1]) + Wrapped(ls[|ls| - 1])
  }

  /** The screen lines of a text. */
  function Layout(text: seq<byte>): (ls: seq<seq<byte>>)
    ensures ls != [] && |ls[|ls| - 1]| < COLS && forall k :: 0 <= k < |ls| ==> |ls[k]| <= COLS
  {
    AllWrapped(SplitLines(text))
  }

  /** The lines with one more character. */
  function Extended(ls: seq<seq<byte>>, ch: byte): (r: seq<seq<byte>>)
    requires ls != []
  {
    if ch == 0x0A then ls + [[]] else
    var l := ls[|ls| - 1] + [ch];
    ls[|ls| - 1 := l] + if |l| < COLS then [] else [[]]
  }

  lemma ExtendedBehind(a: seq<seq<byte>>, b: seq<seq<byte>>, ch: byte)
    requires b != []
    ensures Extended(a + b, ch) == a + Extended(b, ch)
  {
    var ls, n := a + b, |a + b| - 1;
    assert ls[n] == b[|b| - 1];
    var l := ls[n] + [ch];
    assert ls[n := l] == a + b[|b| - 1 := l];
  }

  lemma {:induction false} WrappedExtended(line: seq<byte>, ch: byte)
    requires ch != 0x0A
    ensures Wrapped(line + [ch]) == Extended(Wrapped(line), ch)
    decreases |line|
  {
    var more := line + [ch];
    if |line| + 1 == COLS {
      assert more[..COLS] == more && more[COLS..] == [];
      assert Wrapped(more) == [more] + Wrapped([]);
    } else if |line| >= COLS {
      assert more[..COLS] == line[..COLS] && more[COLS..] == line[COLS..] + [ch];
      WrappedExtended(line[COLS..], ch);
      ExtendedBehind([line[..COLS]], Wrapped(line[COLS..]), ch);
    }
  }

  lemma LayoutExtended(text: seq<byte>, ch: byte)
    ensures Layout(text + [ch]) == Extended(Layout(text), ch)
  {
    var ls := SplitLines(text);
    var n := |ls| - 1;
    assert (text + [ch])[..|text|] == text;
    if ch == 0x0A {
      assert (ls + [[]])[..|ls|] == ls;
      assert AllWrapped(ls + [[]]) == AllWrapped(ls) + Wrapped([]);
    } else {
      var more := ls[n := ls[n] + [ch]];
      assert more[..n] == ls[..n];
      WrappedExtended(ls[n], ch);
      ExtendedBehind(AllWrapped(ls[..n]), Wrapped(ls[n]), ch);
    }
  }

  // ---------------------------------------------------------------- the terminal shows the layout

  predicate Printable(text: seq<byte>) {
    forall i :: 0 <= i < |text| ==> text[i] != 0x0D && text[i] != 0x08
  }

  function Line(ls: seq<seq<byte>>, k: nat): seq<byte> {
    if k < |ls| then ls[k] else []
  }

  /** Below the lines `front`, the terminal shows `ls` and then empty lines, and the cursor is behind the
      last of them. */
  ghost predicate Typed(t: Term, front: seq<Row>, ls: seq<seq<byte>>) {
    && TermOk(t) && ls != []
    && |t.lines| == |front| + (if |ls| < ROWS then ROWS else |ls|) && t.lines[..|front|] == front
    && (forall y :: |front| <= y < |t.lines| ==> RowShows(t.lines[y], Line(ls, y - |front|), t.attr))
    && t.row == |front| + |ls| - 1 && t.col == |ls[|ls| - 1]|
  }

  /** A character written behind the last line. */
  lemma TypedGlyph(t: Term, front: seq<Row>, ls: seq<seq<byte>>, ch: byte, w: Term)
    requires Typed(t, front, ls) && w == Write(t, t.col, ch)
    ensures var n := |ls| - 1; var more := ls[n := ls[n] + [ch]];
      && w.row == t.row && w.attr == t.attr && |w.lines| == |t.lines| && w.lines[..|front|] == front
      && forall y :: |front| <= y < |w.lines| ==> RowShows(w.lines[y], Line(more, y - |front|), t.attr)
  {
    var n := |ls| - 1;
    var more := ls[n := ls[n] + [ch]];
    assert Line(ls, n) == ls[n];
    GlyphAppended(t.lines[t.row], ls[n], t.attr, ch);
    assert w.lines[..|front|] == t.lines[..|front|];
    forall y | |front| <= y < |w.lines| ensures RowShows(w.lines[y], Line(more, y - |front|), t.attr) {
      assert RowShows(t.lines[y], Line(ls, y - |front|), t.attr);
    }
  }

  lemma TypedPut(t: Term, front: seq<Row>, ls: seq<seq<byte>>, ch: byte)
    requires Typed(t, front, ls) && ch != 0x0D && ch != 0x08
    ensures Typed(TermPut(t, ch), front, Extended(ls, ch))
  {
    if ch == 0x0A {
      TypedFull(t, front, ls);
    } else {
      var n, w := |ls| - 1, Write(t, t.col, ch);
      var more := ls[n := ls[n] + [ch]];
      TypedGlyph(t, front, ls, ch, w);
      if t.col + 1 < COLS {
        assert more + [] == more;
        assert Typed(w.(col := t.col + 1), front, more);
      } else {
        TypedFull(w, front, more);
      }
    }
  }

  /** The next line is empty, whether it is there already or not. */
  lemma TypedFull(w: Term, front: seq<Row>, more: seq<seq<byte>>)
    requires TermOk(w) && more != []
    requires |w.lines| == |front| + (if |more| < ROWS then ROWS else |more|) && w.lines[..|front|] == front
    requires forall y :: |front| <= y < |w.lines| ==> RowShows(w.lines[y], Line(more, y - |front|), w.attr)
    requires w.row == |front| + |more| - 1
    ensures Typed(LineFeed(w), front, more + [[]])
  {
    var r := LineFeed(w);
    BlankShows(w.attr);
    forall y | |front| <= y < |r.lines| ensures RowShows(r.lines[y], Line(more + [[]], y - |front|), w.attr) {
      assert y < |w.lines| ==> RowShows(w.lines[y], Line(more, y - |front|), w.attr);
      assert Line(more + [[]], y - |front|) == Line(more, y - |front|);
    }
  }

  function PutAll(text: seq<byte>): (ops: seq<Op>)
    ensures |ops| == |text|
  {
    seq(|text|, i requires 0 <= i < |text| => Put(text[i]))
  }

  lemma ClearTyped(t: Term)
    requires TermOk(t)
    ensures Typed(TermClear(t), t.lines[..|t.lines| - ROWS], [[]])
  {
    BlankShows(t.attr);
    var n, r := |t.lines| - ROWS, TermClear(t);
    assert r.lines[..n] == t.lines[..n];
    forall y | n <= y < |r.lines| ensures RowShows(r.lines[y], Line([[]], y - n), t.attr) {
      assert r.lines[y] == Blank(t.attr) && Line([[]], y - n) == [];
    }
  }

  /** Text put out on a cleared terminal: every line of it, in pieces of 80, is on a line of its own from the
      first visible one on, in the current attribute, with spaces up to the margin; all that was above is
      as it was, and the cursor is behind the last character. */
  lemma {:induction false} TextShown(t: Term, text: seq<byte>)
    requires TermOk(t) && Printable(text)
    ensures Typed(TermRun(TermClear(t), PutAll(text)), t.lines[..|t.lines| - ROWS], Layout(text))
    ensures TermRun(TermClear(t), PutAll(text)).attr == t.attr
  {
    if text == [] {
      ClearTyped(t);
      assert PutAll(text) == [];
      assert SplitLines(text)[..0] == [] && AllWrapped([]) == [];
      assert Layout(text) == [] + Wrapped([]);
    } else {
      var n := |text| - 1;
      TextShown(t, text[..n]);
      OneMore(TermClear(t), text, n);
      LayoutExtended(text[..n], text[n]);
      TypedPut(TermRun(TermClear(t), PutAll(text[..n])), t.lines[..|t.lines| - ROWS], Layout(text[..n]), text[n]);
    }
  }

  lemma OneMore(t: Term, text: seq<byte>, n: nat)
    requires TermOk(t) && n + 1 == |text|
    ensures text == text[..n] + [text[n]]
    ensures TermRun(t, PutAll(text)) == TermPut(TermRun(t, PutAll(text[..n])), text[n])
    ensures TermRun(t, PutAll(text)).attr == TermRun(t, PutAll(text[..n])).attr
  {
    var ops := PutAll(text);
    assert ops[..n] == PutAll(text[..n]) && ops[n] == Put(text[n]);
  }

  /** A backspace takes back the character before it. */
  lemma BackspaceUndoes(t: Term, ch: byte)
    requires TermOk(t) && IsGlyph(ch) && t.col + 1 < COLS
    ensures var r := TermPut(TermPut(t, ch), 0x08);
      && r == t.(lines := t.lines[t.row := t.lines[t.row][t.col := Glyph(0x20, t.attr)]])
      && (t.lines[t.row][t.col] == Glyph(0x20, t.attr) ==> r == t)
  {
    var row := t.lines[t.row];
    assert row[t.col := Glyph(ch, t.attr)][t.col := Glyph(0x20, t.attr)] == row[t.col := Glyph(0x20, t.attr)];
    if row[t.col] == Glyph(0x20, t.attr) {
      assert row[t.col := Glyph(0x20, t.attr)] == row;
    }
  }

  // ---------------------------------------------------------------- the console shows it too

  lemma {:induction false} OutputStaysLive(attr: byte, ops: seq<Op>)
    requires forall i :: 0 <= i < |ops| ==> ops[i].Put?
    ensures Run(Boot(attr), ops).offset == 0 && Run(Boot(attr), ops).attr == attr
  {
    if ops != [] {
      var n := |ops| - 1;
      OutputStaysLive(attr, ops[..n]);
      assert ops[n].Put?;
    }
  }

  lemma PowerOnIsClear(attr: byte)
    ensures TermClear(PowerOn(attr)) == PowerOn(attr) && PowerOn(attr).lines[..|PowerOn(attr).lines| - ROWS] == []
  {
  }

  /** The lines `part` show the lines of `ls` from `from` on. */
  ghost predicate Part(part: seq<Row>, ls: seq<seq<byte>>, from: nat, attr: byte) {
    forall k :: 0 <= k < |part| ==> RowShows(part[k], Line(ls, from + k), attr)
  }

  /** The console holds the last lines of `ls`, those of the ring oldest first and then the screen; lines of
      the screen that the text has not reached are empty. */
  ghost predicate ConsoleShows(c: Console, ls: seq<seq<byte>>, attr: byte)
    requires ConsoleOk(c)
  {
    var top := if |ls| < ROWS then 0 else |ls| - ROWS;
    && c.count == Min(RING, top) && top + c.row == |ls| - 1 && c.col == |Line(ls, |ls| - 1)|
    && Part(c.screen, ls, top, attr) && Part(History(c.ring, c.writePos, c.count), ls, top - c.count, attr)
  }

  /** The lines `part` are those from `from` on of lines that show `ls`. */
  lemma PartShows(lines: seq<Row>, ls: seq<seq<byte>>, attr: byte, part: seq<Row>, from: nat)
    requires from + |part| <= |lines| && part == lines[from..from + |part|]
    requires Part(lines, ls, 0, attr)
    ensures Part(part, ls, from, attr)
  {
    forall k | 0 <= k < |part| ensures RowShows(part[k], Line(ls, from + k), attr) {
      assert part[k] == lines[from + k];
    }
  }

  lemma TypedLines(t: Term, ls: seq<seq<byte>>)
    requires Typed(t, [], ls)
    ensures Part(t.lines, ls, 0, t.attr)
    ensures |t.lines| == (if |ls| < ROWS then ROWS else |ls|) && t.row == |ls| - 1 && t.col == |Line(ls, |ls| - 1)|
  {
    forall k | 0 <= k < |t.lines| ensures RowShows(t.lines[k], Line(ls, 0 + k), t.attr) {
      assert RowShows(t.lines[k], Line(ls, k - 0), t.attr);
    }
  }

  lemma TailShows(h: seq<Row>, live: seq<Row>, lines: seq<Row>, ls: seq<seq<byte>>, attr: byte, top: nat, first: nat)
    requires Tail(h, live, lines) && top == |lines| - ROWS && first == top - |h|
    requires Part(lines, ls, 0, attr)
    ensures Part(live, ls, top, attr) && Part(h, ls, first, attr)
  {
    assert live == lines[top..top + |live|];
    PartShows(lines, ls, attr, live, top);
    PartShows(lines, ls, attr, h, first);
  }

  lemma ConsoleIs(c: Console, ls: seq<seq<byte>>, attr: byte, h: seq<Row>, top: nat, first: nat)
    requires ConsoleOk(c) && h == History(c.ring, c.writePos, c.count) && top == if |ls| < ROWS then 0 else |ls| - ROWS
    requires c.count == Min(RING, top) && first == top - c.count && top + c.row == |ls| - 1
    requires c.col == |Line(ls, |ls| - 1)| && Part(c.screen, ls, top, attr) && Part(h, ls, first, attr)
    ensures ConsoleShows(c, ls, attr)
  {
  }

  lemma ShowsLayout(c: Console, t: Term, ls: seq<seq<byte>>)
    requires Shows(c, t) && c.offset == 0 && ls != [] && Part(t.lines, ls, 0, t.attr)
    requires |t.lines| == (if |ls| < ROWS then ROWS else |ls|) && t.row == |ls| - 1 && t.col == |Line(ls, |ls| - 1)|
    ensures ConsoleShows(c, ls, t.attr)
  {
    var h, top := History(c.ring, c.writePos, c.count), |t.lines| - ROWS;
    var first := top - c.count;
    TailShows(h, c.screen, t.lines, ls, t.attr, top, first);
    ConsoleIs(c, ls, t.attr, h, top, first);
  }

  /** Any text put out on a fresh console is what the display and the ring hold: the last 25 lines of its
      layout on the screen, up to 500 before them in the ring, each as characters and attributes. */
  lemma ConsoleShowsText(attr: byte, text: seq<byte>)
    requires Printable(text)
    ensures ConsoleShows(Run(Boot(attr), PutAll(text)), Layout(text), attr)
  {
    var ops := PutAll(text);
    forall n | 0 <= n < |ops| ensures Calm(Run(Boot(attr), ops[..n]), ops[n]) {
      OutputStaysLive(attr, ops[..n]);
    }
    ConsoleRefinesTerminal(attr, ops);
    OutputStaysLive(attr, ops);
    PowerOnIsClear(attr);
    TextShown(PowerOn(attr), text);
    TypedLines(TermRun(PowerOn(attr), ops), Layout(text));
    ShowsLayout(Run(Boot(attr), ops), TermRun(PowerOn(attr), ops), Layout(text));
  }

  // ---------------------------------------------------------------- what the keys do

  /** The same key so many times. */
  function Repeated(k: Key, n: nat): (ks: seq<Key>)
    ensures |ks| == n
  {
    seq(n, _ => k)
  }

  lemma {:induction false} PageUps(c: Console, n: nat)
    requires ConsoleOk(c) && c.offset <= c.count
    ensures PressAll(c, Repeated(Up, n)).offset == Min(c.offset + 5 * n, c.count)
    ensures PressAll(c, Repeated(Up, n)).count == c.count
  {
    if n > 0 {
      PageUps(c, n - 1);
      assert Repeated(Up, n)[..n - 1] == Repeated(Up, n - 1);
    }
  }

  lemma {:induction false} PageDowns(c: Console, n: nat)
    requires ConsoleOk(c) && c.offset <= c.count
    ensures PressAll(c, Repeated(Down, n)).offset == if 5 * n <= c.offset then c.offset - 5 * n else 0
  {
    if n > 0 {
      PageDowns(c, n - 1);
      assert Repeated(Down, n)[..n - 1] == Repeated(Down, n - 1);
    }
  }

  /** PgUp goes back five lines at a time, as far as there are any, PgDn comes forward as many, and the reset
      key comes all the way; the same number of both leads back to the live screen. */
  lemma KeysMove(c: Console, n: nat)
    requires ViewOk(c) && c.offset == 0
    ensures var up := PressAll(c, Repeated(Up, n));
      && up.offset == Min(5 * n, c.count) && (up.offset > 0 ==> up.screen == Marked(Window(c, up.offset)))
      && PressAll(up, Repeated(Down, n)).offset == 0 && PressAll(up, Repeated(Down, n)).screen == c.screen
      && Press(up, Home).offset == 0 && Press(up, Home).screen == c.screen
  {
    PageUps(c, n);
    ScrollingRestores(c, Repeated(Up, n));
    var up := PressAll(c, Repeated(Up, n));
    PageDowns(up, n);
    ScrollingRestores(up, Repeated(Down, n));
    PressKeepsView(up, Home);
  }
}
