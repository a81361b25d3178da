/** The text that the console is to show: a grid of cells with a cursor. */
module TextGrid {
  import opened Words
  import opened Raster

  datatype Cell = Blank(bg: u32) | Glyph(ch: int, fg: u32, bg: u32)

  datatype Text = Text(lines: seq<seq<Cell>>, col: nat, row: nat)

  /** A grid of the given size with its cursor inside. */
  predicate InGrid(t: Text, cols: nat, rows: nat) {
    IsGrid(t.lines, cols, rows) && t.col < cols && t.row < rows
  }

  predicate IsGrid(lines: seq<seq<Cell>>, cols: nat, rows: nat) {
    |lines| == rows && forall r :: 0 <= r < rows ==> |lines[r]| == cols
  }

  function BlankLine(bg: u32, cols: nat): (r: seq<Cell>)
    ensures |r| == cols
  {
    seq(cols, _ => Blank(bg))
  }

  function Cleared(bg: u32, cols: nat, rows: nat): (t: Text)
    ensures cols > 0 && rows > 0 ==> InGrid(t, cols, rows)
  {
    Text(seq(rows, _ => BlankLine(bg, cols)), 0, 0)
  }

  /** One line leaves at the top, and a blank one comes in at the bottom. */
  function ScrollUp(lines: seq<seq<Cell>>, bg: u32, cols: nat): seq<seq<Cell>>
    requires lines != []
  {
    lines[1..] + [BlankLine(bg, cols)]
  }

  function Type(t: Text, c: int, fg: u32, bg: u32, cols: nat, rows: nat): Text
    requires InGrid(t, cols, rows)
  {
    if c == '\n' as int then t.(col := 0, row := t.row + 1)
    else if c == '\r' as int then t.(col := 0)
    else if c >= 0x20 then
      var lines := t.lines[t.row := t.lines[t.row][t.col := Glyph(c, fg, bg)]];
      if t.col + 1 >= cols then Text(lines, 0, t.row + 1) else Text(lines, t.col + 1, t.row)
    else t
  }

  function Settle(t: Text, bg: u32, cols: nat, rows: nat): Text
    requires t.lines != [] && rows > 0
  {
    if t.row >= rows then Text(ScrollUp(t.lines, bg, cols), t.col, rows - 1) else t
  }

  /** One character; codes below 0x20 other than newline and carriage return, and negative ones, do nothing. */
  function Put(t: Text, c: int, fg: u32, bg: u32, cols: nat, rows: nat): (r: Text)
    requires InGrid(t, cols, rows)
    ensures InGrid(r, cols, rows)
  {
    Settle(Type(t, c, fg, bg, cols, rows), bg, cols, rows)
  }

  // ---- what printing looks like ---------------------------------------------------------------

  predicate Printable(s: seq<int>) { forall c <- s :: c >= 0x20 }

  /** The line and the column at which character number n of a text goes. */
  function LineNo(n: nat, cols: nat): nat
    requires cols > 0
  {
    n / cols
  }

  function ColNo(n: nat, cols: nat): (c: nat)
    requires cols > 0
    ensures c < cols
  {
    n % cols
  }

  /** The number of lines that have left the screen when n characters have been printed. */
  function Gone(n: nat, cols: nat, rows: nat): nat
    requires cols > 0
  {
    if LineNo(n, cols) < rows then 0 else LineNo(n, cols) - rows + 1
  }

  function CellOf(s: seq<int>, i: nat, fg: u32, bg: u32): Cell {
    if i < |s| then Glyph(s[i], fg, bg) else Blank(bg)
  }

  /** Line number r of the text s, broken every cols characters. */
  function LineOf(s: seq<int>, r: nat, fg: u32, bg: u32, cols: nat): (line: seq<Cell>)
    ensures |line| == cols
  {
    seq(cols, c requires 0 <= c < cols => CellOf(s, At(cols, c, r), fg, bg))
  }

  function LinesOf(s: seq<int>, first: nat, fg: u32, bg: u32, cols: nat, rows: nat): (lines: seq<seq<Cell>>)
    ensures IsGrid(lines, cols, rows)
  {
    if rows == 0 then [] else LinesOf(s, first, fg, bg, cols, rows - 1) + [LineOf(s, first + rows - 1, fg, bg, cols)]
  }

  lemma {:induction false} LinesAt(s: seq<int>, first: nat, fg: u32, bg: u32, cols: nat, rows: nat)
    ensures forall r :: 0 <= r < rows ==> LinesOf(s, first, fg, bg, cols, rows)[r] == LineOf(s, first + r, fg, bg, cols)
  {
    hide LineOf;
    if rows > 0 { LinesAt(s, first, fg, bg, cols, rows - 1); }
  }

  /** The last lines of the text s. */
  function Tail(s: seq<int>, fg: u32, bg: u32, cols: nat, rows: nat): (t: Text)
    requires cols > 0 && rows > 0
    ensures InGrid(t, cols, rows)
  {
    var gone := Gone(|s|, cols, rows);
    Text(LinesOf(s, gone, fg, bg, cols, rows), ColNo(|s|, cols), LineNo(|s|, cols) - gone)
  }

  lemma Place(n: nat, cols: nat)
    requires cols > 0
    ensures n == At(cols, ColNo(n, cols), LineNo(n, cols))
    ensures if ColNo(n, cols) + 1 == cols then LineNo(n + 1, cols) == LineNo(n, cols) + 1 && ColNo(n + 1, cols) == 0
            else LineNo(n + 1, cols) == LineNo(n, cols) && ColNo(n + 1, cols) == ColNo(n, cols) + 1
  {
    var q, r := n / cols, n % cols;
    assert n == cols * q + r;
    if r + 1 == cols {
      assert n + 1 == cols * (q + 1) + 0;
      ModUnique(n + 1, cols, q + 1, 0);
    } else {
      ModUnique(n + 1, cols, q, r + 1);
    }
  }

  /** One more character changes the line it is in at its column, and no other line. */
  lemma LineStep(s: seq<int>, ch: int, r: nat, fg: u32, bg: u32, cols: nat)
    requires cols > 0
    ensures LineOf(s + [ch], r, fg, bg, cols) ==
      if r == LineNo(|s|, cols) then LineOf(s, r, fg, bg, cols)[ColNo(|s|, cols) := Glyph(ch, fg, bg)]
      else LineOf(s, r, fg, bg, cols)
  {
    Place(|s|, cols);
    hide LineNo, ColNo, At;
    var line, col := LineNo(|s|, cols), ColNo(|s|, cols);
    forall c | 0 <= c < cols
      ensures CellOf(s + [ch], At(cols, c, r), fg, bg) ==
        if r == line && c == col then Glyph(ch, fg, bg) else CellOf(s, At(cols, c, r), fg, bg)
    {
      AtInjective(cols, c, r, col, line);
    }
  }

  /** A line that the text has not reached is blank. */
  lemma LineBeyond(s: seq<int>, r: nat, fg: u32, bg: u32, cols: nat)
    requires cols > 0 && r * cols >= |s|
    ensures LineOf(s, r, fg, bg, cols) == BlankLine(bg, cols)
  {
  }

  /** Typing the next character on the tail of s: the lines of the longer text, not scrolled yet. */
  lemma TypeStep(s: seq<int>, ch: int, fg: u32, bg: u32, cols: nat, rows: nat)
    requires cols > 0 && rows > 0 && ch >= 0x20
    ensures var t := Type(Tail(s, fg, bg, cols, rows), ch, fg, bg, cols, rows);
      t.lines == LinesOf(s + [ch], Gone(|s|, cols, rows), fg, bg, cols, rows) &&
      t.col == ColNo(|s| + 1, cols) && t.row + Gone(|s|, cols, rows) == LineNo(|s| + 1, cols)
  {
    hide LineOf, LinesOf, LineNo, ColNo;
    var gone, t := Gone(|s|, cols, rows), Tail(s, fg, bg, cols, rows);
    Place(|s|, cols);
    LinesAt(s, gone, fg, bg, cols, rows);
    LinesAt(s + [ch], gone, fg, bg, cols, rows);
    var lines := t.lines[t.row := t.lines[t.row][t.col := Glyph(ch, fg, bg)]];
    forall r | 0 <= r < rows ensures lines[r] == LineOf(s + [ch], gone + r, fg, bg, cols) {
      LineStep(s, ch, gone + r, fg, bg, cols);
    }
    SameLines(lines, LinesOf(s + [ch], gone, fg, bg, cols, rows), rows);
  }

  lemma ScrollLines(s: seq<int>, gone: nat, fg: u32, bg: u32, cols: nat, rows: nat)
    requires cols > 0 && rows > 0 && LineOf(s, gone + rows, fg, bg, cols) == BlankLine(bg, cols)
    ensures ScrollUp(LinesOf(s, gone, fg, bg, cols, rows), bg, cols) == LinesOf(s, gone + 1, fg, bg, cols, rows)
  {
    LinesAt(s, gone, fg, bg, cols, rows);
    LinesAt(s, gone + 1, fg, bg, cols, rows);
    hide LineOf, LinesOf, BlankLine;
    SameLines(ScrollUp(LinesOf(s, gone, fg, bg, cols, rows), bg, cols), LinesOf(s, gone + 1, fg, bg, cols, rows), rows);
  }

  /** Printing a character shows the tail of the longer text. */
  lemma PrintStep(s: seq<int>, ch: int, fg: u32, bg: u32, cols: nat, rows: nat)
    requires cols > 0 && rows > 0 && ch >= 0x20
    ensures Put(Tail(s, fg, bg, cols, rows), ch, fg, bg, cols, rows) == Tail(s + [ch], fg, bg, cols, rows)
  {
    var n, gone, gone' := |s|, Gone(|s|, cols, rows), Gone(|s| + 1, cols, rows);
    hide Type, LinesOf, LineNo, ColNo, LineOf, ScrollUp;
    Place(n, cols);
    TypeStep(s, ch, fg, bg, cols, rows);
    if gone' == gone + 1 {
      LineAfter(n + 1, rows + gone, cols);
      LineBeyond(s + [ch], rows + gone, fg, bg, cols);
      ScrollLines(s + [ch], gone, fg, bg, cols, rows);
    }
  }

  lemma SameLines(a: seq<seq<Cell>>, b: seq<seq<Cell>>, rows: nat)
    requires |a| == rows && |b| == rows && forall r :: 0 <= r < rows ==> a[r] == b[r]
    ensures a == b
  {
  }

  /** The column of a character is zero at the start of its line. */
  lemma LineAfter(n: nat, r: nat, cols: nat)
    requires cols > 0 && ColNo(n, cols) == 0 && r == LineNo(n, cols)
    ensures r * cols >= n
  {
    Place(n, cols);
  }

  /** Prints a string. */
  function PutAll(t: Text, s: seq<int>, fg: u32, bg: u32, cols: nat, rows: nat): (r: Text)
    requires InGrid(t, cols, rows)
    ensures InGrid(r, cols, rows)
  {
    if s == [] then t else Put(PutAll(t, s[..|s| - 1], fg, bg, cols, rows), s[|s| - 1], fg, bg, cols, rows)
  }

  /** On a cleared screen, wrapping and scrolling always leave the last lines of what was printed. */
  lemma {:induction false} PrintingShowsTail(s: seq<int>, fg: u32, bg: u32, cols: nat, rows: nat)
    requires cols > 0 && rows > 0 && Printable(s)
    ensures PutAll(Cleared(bg, cols, rows), s, fg, bg, cols, rows) == Tail(s, fg, bg, cols, rows)
  {
    if s == [] {
      assert Gone(0, cols, rows) == 0 && ColNo(0, cols) == 0;
      LinesAt(s, 0, fg, bg, cols, rows);
      forall r: nat | r < rows ensures LineOf(s, r, fg, bg, cols) == BlankLine(bg, cols) { LineBeyond(s, r, fg, bg, cols); }
      assert Tail(s, fg, bg, cols, rows).lines == Cleared(bg, cols, rows).lines;
    } else {
      var init := s[..|s| - 1];
      assert forall c <- init :: c in s;
      PrintingShowsTail(init, fg, bg, cols, rows);
      assert s[|s| - 1] in s;
      PrintStep(init, s[|s| - 1], fg, bg, cols, rows);
      assert init + [s[|s| - 1]] == s;
    }
  }

  // ---- runs ---------------------------------------------------------------------------------------

  datatype Event = Char(c: int) | Colors(fg: u32, bg: u32)

  /** The text together with the current colours. */
  datatype Screen = Screen(text: Text, fg: u32, bg: u32)

  function Step(s: Screen, e: Event, cols: nat, rows: nat): (r: Screen)
    requires InGrid(s.text, cols, rows)
    ensures InGrid(r.text, cols, rows)
  {
    match e
    case Char(c) => s.(text := Put(s.text, c, s.fg, s.bg, cols, rows))
    case Colors(fg, bg) => Screen(s.text, fg, bg)
  }

  function Run(s: Screen, es: seq<Event>, cols: nat, rows: nat): (r: Screen)
    requires InGrid(s.text, cols, rows)
    ensures InGrid(r.text, cols, rows)
    decreases es
  {
    if es == [] then s else Run(Step(s, es[0], cols, rows), es[1..], cols, rows)
  }

  // ---- the screen as a window on endless paper -------------------------------------------------------

  /** Text on paper of any length, with its last rows in the window and the cursor in the window. */
  predicate OnPaper(p: Text, cols: nat, rows: nat) {
    InGrid(p, cols, |p.lines|) && 0 < rows <= |p.lines| && |p.lines| - rows <= p.row
  }

  function Window(p: Text, rows: nat): Text
    requires rows <= |p.lines| && |p.lines| - rows <= p.row
  {
    var gone := |p.lines| - rows;
    Text(p.lines[gone..], p.col, p.row - gone)
  }

  /** One character on paper: nothing ever scrolls, and a new line is added when the cursor leaves the last. */
  function Write(p: Text, c: int, fg: u32, bg: u32, cols: nat): Text
    requires InGrid(p, cols, |p.lines|)
  {
    var t := Type(p, c, fg, bg, cols, |p.lines|);
    if t.row >= |t.lines| then t.(lines := t.lines + [BlankLine(bg, cols)]) else t
  }

  function WriteEvent(s: Screen, e: Event, cols: nat): (r: Screen)
    requires InGrid(s.text, cols, |s.text.lines|)
    ensures InGrid(r.text, cols, |r.text.lines|)
  {
    match e
    case Char(c) => s.(text := Write(s.text, c, s.fg, s.bg, cols))
    case Colors(fg, bg) => Screen(s.text, fg, bg)
  }

  function WriteAll(s: Screen, es: seq<Event>, cols: nat): (r: Screen)
    requires InGrid(s.text, cols, |s.text.lines|)
    ensures InGrid(r.text, cols, |r.text.lines|)
    decreases es
  {
    if es == [] then s else WriteAll(WriteEvent(s, es[0], cols), es[1..], cols)
  }

  lemma DropUpdate<T>(s: seq<T>, g: nat, i: nat, x: T)
    requires g <= i < |s|
    ensures s[i := x][g..] == s[g..][i - g := x]
  {
  }

  lemma DropAppend<T>(s: seq<T>, g: nat, x: T)
    requires g < |s|
    ensures (s + [x])[g + 1..] == s[g..][1..] + [x]
  {
  }

  /** Typing into the window is typing on the paper. */
  lemma TypeInWindow(p: Text, c: int, fg: u32, bg: u32, cols: nat, rows: nat)
    requires OnPaper(p, cols, rows)
    ensures InGrid(Window(p, rows), cols, rows)
    ensures var t := Type(p, c, fg, bg, cols, |p.lines|);
      |t.lines| == |p.lines| && |p.lines| - rows <= t.row <= |p.lines| && t.col < cols && IsGrid(t.lines, cols, |p.lines|) &&
      Type(Window(p, rows), c, fg, bg, cols, rows) == Window(t, rows)
  {
    var gone := |p.lines| - rows;
    DropUpdate(p.lines, gone, p.row, p.lines[p.row][p.col := Glyph(c, fg, bg)]);
  }

  /** Scrolling a grid is moving a window over the paper. */
  lemma WindowStep(p: Text, c: int, fg: u32, bg: u32, cols: nat, rows: nat)
    requires OnPaper(p, cols, rows)
    ensures OnPaper(Write(p, c, fg, bg, cols), cols, rows)
    ensures InGrid(Window(p, rows), cols, rows)
    ensures Put(Window(p, rows), c, fg, bg, cols, rows) == Window(Write(p, c, fg, bg, cols), rows)
  {
    hide Type, BlankLine;
    TypeInWindow(p, c, fg, bg, cols, rows);
    var t := Type(p, c, fg, bg, cols, |p.lines|);
    DropAppend(t.lines, |p.lines| - rows, BlankLine(bg, cols));
  }

  /**
   * Any run of characters, control characters and colour changes leaves the screen showing the last
   * lines of what the run writes on endless paper.
   */
  lemma {:induction false} ScreenIsWindow(s: Screen, es: seq<Event>, cols: nat, rows: nat)
    requires OnPaper(s.text, cols, rows)
    ensures OnPaper(WriteAll(s, es, cols).text, cols, rows) && InGrid(Window(s.text, rows), cols, rows)
    ensures Run(s.(text := Window(s.text, rows)), es, cols, rows) ==
      var p := WriteAll(s, es, cols); p.(text := Window(p.text, rows))
    decreases es
  {
    hide Write, Window, Put;
    assert InGrid(Window(s.text, rows), cols, rows) by { WindowStep(s.text, 0, s.fg, s.bg, cols, rows); }
    if es != [] {
      if es[0].Char? { WindowStep(s.text, es[0].c, s.fg, s.bg, cols, rows); }
      ScreenIsWindow(WriteEvent(s, es[0], cols), es[1..], cols, rows);
    }
  }

  // ---- whole lines ------------------------------------------------------------------------------------

  /** A line of the screen with the text l at its start. */
  function Row(l: seq<int>, fg: u32, bg: u32, cols: nat): (r: seq<Cell>)
    ensures |r| == cols
  {
    seq(cols, c requires 0 <= c < cols => CellOf(l, c, fg, bg))
  }

  /** n lines that show ls and are blank below. */
  function Sheet(ls: seq<seq<int>>, n: nat, fg: u32, bg: u32, cols: nat): (r: seq<seq<Cell>>)
    ensures IsGrid(r, cols, n)
  {
    var r := seq(n, i requires 0 <= i < n => Row(if i < |ls| then ls[i] else [], fg, bg, cols));
    assert forall i :: 0 <= i < n ==> r[i] == Row(if i < |ls| then ls[i] else [], fg, bg, cols);
    r
  }

  function Chars(l: seq<int>): seq<Event> { seq(|l|, i requires 0 <= i < |l| => Char(l[i])) }

  /** The events that print the lines ls, each ended by a newline. */
  function Feed(ls: seq<seq<int>>): seq<Event> {
    if ls == [] then [] else Feed(ls[..|ls| - 1]) + Chars(ls[|ls| - 1]) + [Char('\n' as int)]
  }

  lemma WriteNothing(s: Screen, cols: nat)
    requires InGrid(s.text, cols, |s.text.lines|)
    ensures WriteAll(s, [], cols) == s
  {
  }

  lemma {:induction false} WriteBoth(s: Screen, a: seq<Event>, b: seq<Event>, cols: nat)
    requires InGrid(s.text, cols, |s.text.lines|)
    ensures WriteAll(s, a + b, cols) == WriteAll(WriteAll(s, a, cols), b, cols)
    decreases a
  {
    if a == [] {
      assert a + b == b;
    } else {
      assert (a + b)[1..] == a[1..] + b;
      WriteBoth(WriteEvent(s, a[0], cols), a[1..], b, cols);
    }
  }

  lemma RowStep(l: seq<int>, k: nat, fg: u32, bg: u32, cols: nat)
    requires 0 < k <= |l| < cols
    ensures Row(l[..k], fg, bg, cols) == Row(l[..k - 1], fg, bg, cols)[k - 1 := Glyph(l[k - 1], fg, bg)]
  {
  }

  /** Printing k characters of a line that is shorter than the screen is wide. */
  lemma {:induction false} WriteChars(s: Screen, l: seq<int>, k: nat, cols: nat)
    requires InGrid(s.text, cols, |s.text.lines|) && s.text.col == 0 && s.text.lines[s.text.row] == Row([], s.fg, s.bg, cols)
    requires Printable(l) && k <= |l| < cols
    ensures WriteAll(s, Chars(l[..k]), cols) ==
      s.(text := Text(s.text.lines[s.text.row := Row(l[..k], s.fg, s.bg, cols)], k, s.text.row))
  {
    if k == 0 {
      assert s.text.lines[s.text.row := Row([], s.fg, s.bg, cols)] == s.text.lines;
    } else {
      WriteChars(s, l, k - 1, cols);
      assert Chars(l[..k]) == Chars(l[..k - 1]) + [Char(l[k - 1])];
      WriteBoth(s, Chars(l[..k - 1]), [Char(l[k - 1])], cols);
      RowStep(l, k, s.fg, s.bg, cols);
      var t := s.(text := Text(s.text.lines[s.text.row := Row(l[..k - 1], s.fg, s.bg, cols)], k - 1, s.text.row));
      assert l[k - 1] in l;
      hide Row, Chars;
      assert WriteAll(t, [Char(l[k - 1])], cols) == WriteEvent(t, Char(l[k - 1]), cols);
      assert t.text.lines[s.text.row := Row(l[..k], s.fg, s.bg, cols)] ==
        s.text.lines[s.text.row := Row(l[..k], s.fg, s.bg, cols)];
    }
  }

  function LongerOf(a: nat, b: nat): nat { if a < b then b else a }

  lemma SheetStep(ls: seq<seq<int>>, l: seq<int>, n: nat, fg: u32, bg: u32, cols: nat)
    requires |ls| < n
    ensures Sheet(ls, n, fg, bg, cols)[|ls| := Row(l, fg, bg, cols)] == Sheet(ls + [l], n, fg, bg, cols)
  {
    hide Row;
    SameLines(Sheet(ls, n, fg, bg, cols)[|ls| := Row(l, fg, bg, cols)], Sheet(ls + [l], n, fg, bg, cols), n);
  }

  lemma SheetLonger(ls: seq<seq<int>>, n: nat, fg: u32, bg: u32, cols: nat)
    requires |ls| <= n
    ensures Sheet(ls, n, fg, bg, cols) + [BlankLine(bg, cols)] == Sheet(ls, n + 1, fg, bg, cols)
  {
    RowOfNothing(fg, bg, cols);
    hide Row, BlankLine;
    SameLines(Sheet(ls, n, fg, bg, cols) + [BlankLine(bg, cols)], Sheet(ls, n + 1, fg, bg, cols), n + 1);
  }

  lemma SheetDrop(ls: seq<seq<int>>, g: nat, n: nat, fg: u32, bg: u32, cols: nat)
    requires g <= |ls|
    ensures Sheet(ls, g + n, fg, bg, cols)[g..] == Sheet(ls[g..], n, fg, bg, cols)
  {
    hide Row;
    SameLines(Sheet(ls, g + n, fg, bg, cols)[g..], Sheet(ls[g..], n, fg, bg, cols), n);
  }

  lemma RowOfNothing(fg: u32, bg: u32, cols: nat)
    ensures Row([], fg, bg, cols) == BlankLine(bg, cols)
  {
  }

  /** One more line, in the first empty line of a sheet. */
  lemma FeedLine(ls: seq<seq<int>>, l: seq<int>, n: nat, fg: u32, bg: u32, cols: nat)
    requires |ls| < n && Printable(l) && |l| < cols
    ensures WriteAll(Screen(Text(Sheet(ls, n, fg, bg, cols), 0, |ls|), fg, bg), Chars(l) + [Char('\n' as int)], cols) ==
      Screen(Text(Sheet(ls + [l], LongerOf(n, |ls| + 2), fg, bg, cols), 0, |ls| + 1), fg, bg)
  {
    var s, nl := Screen(Text(Sheet(ls, n, fg, bg, cols), 0, |ls|), fg, bg), [Char('\n' as int)];
    WriteBoth(s, Chars(l), nl, cols);
    WriteChars(s, l, |l|, cols);
    assert l[..|l|] == l;
    SheetStep(ls, l, n, fg, bg, cols);
    SheetLonger(ls + [l], n, fg, bg, cols);
    hide Row, Sheet, Chars, BlankLine;
    var t := Screen(Text(Sheet(ls + [l], n, fg, bg, cols), |l|, |ls|), fg, bg);
    assert WriteAll(s, Chars(l), cols) == t;
    assert WriteAll(t, nl, cols) == WriteEvent(t, nl[0], cols);
  }

  /** Whole lines are written one below the other. */
  lemma {:induction false} FeedPaper(ls: seq<seq<int>>, fg: u32, bg: u32, cols: nat, rows: nat)
    requires cols > 0 && rows > 0 && forall l <- ls :: Printable(l) && |l| < cols
    ensures WriteAll(Screen(Text(Sheet([], rows, fg, bg, cols), 0, 0), fg, bg), Feed(ls), cols) ==
      Screen(Text(Sheet(ls, LongerOf(rows, |ls| + 1), fg, bg, cols), 0, |ls|), fg, bg)
  {
    hide Sheet, WriteAll, Chars, Printable;
    if ls == [] {
      WriteNothing(Screen(Text(Sheet([], rows, fg, bg, cols), 0, 0), fg, bg), cols);
    } else {
      var init, l := ls[..|ls| - 1], ls[|ls| - 1];
      var start := Screen(Text(Sheet([], rows, fg, bg, cols), 0, 0), fg, bg);
      assert ls == init + [l] && l in ls && forall x <- init :: x in ls;
      FeedPaper(init, fg, bg, cols, rows);
      WriteBoth(start, Feed(init), Chars(l) + [Char('\n' as int)], cols);
      assert Feed(ls) == Feed(init) + (Chars(l) + [Char('\n' as int)]);
      FeedLine(init, l, LongerOf(rows, |ls|), fg, bg, cols);
    }
  }

  /** The lines that have left the screen when n lines have been printed. */
  function LinesGone(n: nat, rows: nat): nat { if n < rows then 0 else n + 1 - rows }

  lemma WindowOfSheet(ls: seq<seq<int>>, fg: u32, bg: u32, cols: nat, rows: nat)
    requires rows > 0
    ensures var gone := LinesGone(|ls|, rows);
      LongerOf(rows, |ls| + 1) == gone + rows && gone <= |ls| &&
      Window(Text(Sheet(ls, gone + rows, fg, bg, cols), 0, |ls|), rows) ==
        Text(Sheet(ls[gone..], rows, fg, bg, cols), 0, |ls| - gone)
  {
    SheetDrop(ls, LinesGone(|ls|, rows), rows, fg, bg, cols);
  }

  lemma ClearedSheet(fg: u32, bg: u32, cols: nat, rows: nat)
    ensures Cleared(bg, cols, rows) == Text(Sheet([], rows, fg, bg, cols), 0, 0)
  {
    RowOfNothing(fg, bg, cols);
    hide Row;
    SameLines(Cleared(bg, cols, rows).lines, Sheet([], rows, fg, bg, cols), rows);
  }

  /**
   * Printing whole lines on a cleared screen leaves the last of them above an empty line, however many
   * have scrolled away.
   */
  lemma LinesShown(ls: seq<seq<int>>, fg: u32, bg: u32, cols: nat, rows: nat)
    requires cols > 0 && rows > 0 && forall l <- ls :: Printable(l) && |l| < cols
    ensures var gone := LinesGone(|ls|, rows);
      gone <= |ls| && Run(Screen(Cleared(bg, cols, rows), fg, bg), Feed(ls), cols, rows) ==
        Screen(Text(Sheet(ls[gone..], rows, fg, bg, cols), 0, |ls| - gone), fg, bg)
  {
    hide Sheet, Feed, WriteAll, Run, Cleared, Window, Printable;
    var start := Screen(Text(Sheet([], rows, fg, bg, cols), 0, 0), fg, bg);
    ClearedSheet(fg, bg, cols, rows);
    var none: seq<seq<int>> := [];
    WindowOfSheet(none, fg, bg, cols, rows);
    assert none[LinesGone(0, rows)..] == none;
    FeedPaper(ls, fg, bg, cols, rows);
    ScreenIsWindow(start, Feed(ls), cols, rows);
    WindowOfSheet(ls, fg, bg, cols, rows);
  }

  // ---- control characters -------------------------------------------------------------------------------

  /** A line with l written over its start. */
  function Over(line: seq<Cell>, l: seq<int>, fg: u32, bg: u32): (r: seq<Cell>)
    ensures |r| == |line|
  {
    seq(|line|, c requires 0 <= c < |line| => if c < |l| then Glyph(l[c], fg, bg) else line[c])
  }

  lemma OverStep(line: seq<Cell>, l: seq<int>, k: nat, fg: u32, bg: u32)
    requires 0 < k <= |l| < |line|
    ensures Over(line, l[..k], fg, bg) == Over(line, l[..k - 1], fg, bg)[k - 1 := Glyph(l[k - 1], fg, bg)]
  {
  }

  /** Characters printed from the start of a line replace what stands there, and nothing behind them. */
  lemma {:induction false} WriteOver(s: Screen, l: seq<int>, k: nat, cols: nat)
    requires InGrid(s.text, cols, |s.text.lines|) && s.text.col == 0 && Printable(l) && k <= |l| < cols
    ensures WriteAll(s, Chars(l[..k]), cols) ==
      s.(text := Text(s.text.lines[s.text.row := Over(s.text.lines[s.text.row], l[..k], s.fg, s.bg)], k, s.text.row))
  {
    var line := s.text.lines[s.text.row];
    if k == 0 {
      assert Over(line, [], s.fg, s.bg) == line;
      assert s.text.lines[s.text.row := Over(line, [], s.fg, s.bg)] == s.text.lines;
    } else {
      WriteOver(s, l, k - 1, cols);
      assert Chars(l[..k]) == Chars(l[..k - 1]) + [Char(l[k - 1])];
      WriteBoth(s, Chars(l[..k - 1]), [Char(l[k - 1])], cols);
      OverStep(line, l, k, s.fg, s.bg);
      var t := s.(text := Text(s.text.lines[s.text.row := Over(line, l[..k - 1], s.fg, s.bg)], k - 1, s.text.row));
      assert l[k - 1] in l;
      hide Over, Chars;
      assert WriteAll(t, [Char(l[k - 1])], cols) == WriteEvent(t, Char(l[k - 1]), cols);
      assert t.text.lines[s.text.row := Over(line, l[..k], s.fg, s.bg)] ==
        s.text.lines[s.text.row := Over(line, l[..k], s.fg, s.bg)];
    }
  }

  /** The control codes: 13 goes back to the start of the line, 10 to the start of the next, others do nothing. */
  lemma ControlCodes(p: Text, c: int, fg: u32, bg: u32, cols: nat)
    requires InGrid(p, cols, |p.lines|) && c < 32
    ensures c == 13 ==> Write(p, c, fg, bg, cols) == Text(p.lines, 0, p.row)
    ensures c == 10 && p.row + 1 < |p.lines| ==> Write(p, c, fg, bg, cols) == Text(p.lines, 0, p.row + 1)
    ensures c == 10 && p.row + 1 == |p.lines| ==>
      Write(p, c, fg, bg, cols) == Text(p.lines + [BlankLine(bg, cols)], 0, p.row + 1)
    ensures c != 10 && c != 13 ==> Write(p, c, fg, bg, cols) == p
  {
  }

  /** A line printed behind a carriage return replaces the start of the line printed before it. */
  lemma Overwritten(s: Screen, l: seq<int>, m: seq<int>, cols: nat)
    requires InGrid(s.text, cols, |s.text.lines|) && s.text.col == 0 && Printable(l) && Printable(m) && |l| < cols && |m| < cols
    ensures var line := s.text.lines[s.text.row];
      WriteAll(s, Chars(l) + [Char(13)] + Chars(m), cols) ==
      s.(text := Text(s.text.lines[s.text.row := Over(Over(line, l, s.fg, s.bg), m, s.fg, s.bg)], |m|, s.text.row))
  {
    var line, cr := s.text.lines[s.text.row], [Char(13)];
    var t := s.(text := Text(s.text.lines[s.text.row := Over(line, l, s.fg, s.bg)], |l|, s.text.row));
    var u := t.(text := Text(t.text.lines, 0, t.text.row));
    assert l[..|l|] == l && m[..|m|] == m;
    WriteOver(s, l, |l|, cols);
    WriteBoth(s, Chars(l) + cr, Chars(m), cols);
    WriteBoth(s, Chars(l), cr, cols);
    ControlCodes(t.text, 13, t.fg, t.bg, cols);
    assert WriteAll(t, cr, cols) == WriteEvent(t, Char(13), cols) == u;
    WriteOver(u, m, |m|, cols);
    assert u.text.lines[s.text.row := Over(Over(line, l, s.fg, s.bg), m, s.fg, s.bg)] ==
      s.text.lines[s.text.row := Over(Over(line, l, s.fg, s.bg), m, s.fg, s.bg)];
  }
}
