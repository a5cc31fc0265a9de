/**
 The virtual terminals of `kernel/tty/tty.c`. The specification is an endless sheet of
 80-column paper on which text only ever grows; the buffer is proved to be the 25 rows of
 it that scrolling, done only when the next character arrives, leaves in view.
 */
module Terminal {

  const VGA_WIDTH: nat := 80
  const VGA_HEIGHT: nat := 25
  const CELLS: nat := 2000
  const TERMINALS_NUMBER: nat := 7

  /** `struct char_with_color`. */
  datatype Cell = Cell(character: char, color: nat)

  /** `make_char`. */
  function MakeChar(ch: char, fg: nat, bg: nat): Cell {
    Cell(ch, fg + 16 * bg)
  }

  /** Both colors can be read back from the attribute byte. */
  lemma ColorsReadBack(ch: char, fg: nat, bg: nat)
    requires fg < 16 && bg < 16
    ensures var color := MakeChar(ch, fg, bg).color; color < 256 && color % 16 == fg && color / 16 == bg
  {
  }

  const BLANK: Cell := MakeChar('\0', 0, 0)

  // The paper: every cell before the cursor, row after row

  function Blanks(n: nat): (s: seq<Cell>)
    ensures |s| == n && forall i :: 0 <= i < n ==> s[i] == BLANK
  {
    seq(n, _ => BLANK)
  }

  /** A newline fills the row with blanks; any other character takes the next cell. */
  function Typed(paper: seq<Cell>, ch: char, fg: nat, bg: nat): seq<Cell> {
    if ch == '\n' then paper + Blanks(VGA_WIDTH - |paper| % VGA_WIDTH) else paper + [MakeChar(ch, fg, bg)]
  }

  /** The first row in view after a character is put with the cursor at the end of the paper. */
  function Scrolled(paper: seq<Cell>, top: nat): nat {
    if |paper| >= RowStart(top + VGA_HEIGHT) then top + 1 else top
  }

  function TypedAll(paper: seq<Cell>, s: string, fg: nat, bg: nat): seq<Cell> {
    if s == [] then paper else Typed(TypedAll(paper, s[..|s| - 1], fg, bg), s[|s| - 1], fg, bg)
  }

  function ScrolledAll(paper: seq<Cell>, top: nat, s: string, fg: nat, bg: nat): nat {
    if s == [] then top
    else Scrolled(TypedAll(paper, s[..|s| - 1], fg, bg), ScrolledAll(paper, top, s[..|s| - 1], fg, bg))
  }

  /** Where the cursor is after the text: past the character, or at the start of the next row of 80. */
  function Cursor(from: nat, s: string): nat {
    if s == [] then from
    else
      var at := Cursor(from, s[..|s| - 1]);
      if s[|s| - 1] == '\n' then (at / 80 + 1) * 80 else at + 1
  }

  /** Where a row of the paper begins. */
  function RowStart(row: nat): nat {
    row * VGA_WIDTH
  }

  /** The paper at a position, blank past the cursor. */
  function On(paper: seq<Cell>, k: nat): Cell {
    if k < |paper| then paper[k] else BLANK
  }

  /** `tty_structure`. */
  class Tty {
    const buffer: array<Cell>
    var line: nat
    var pos: nat
    var fg: nat
    var bg: nat
    ghost var paper: seq<Cell>
    ghost var top: nat

    /** The buffer is rows top .. top + 25 of the paper, and the cursor is at its end. */
    ghost predicate Valid()
      reads this, buffer
    {
      && buffer.Length == CELLS
      && pos < VGA_WIDTH && line <= VGA_HEIGHT && (line == VGA_HEIGHT ==> pos == 0)
      && |paper| == RowStart(top + line) + pos
      && forall k :: 0 <= k < CELLS ==> buffer[k] == On(paper, RowStart(top) + k)
    }

    /** Every character of the text, typed from the given position, is in its cell, unless scrolled out of view. */
    ghost predicate Shows(s: string, from: nat)
      reads this, buffer
    {
      buffer.Length == 2000 && forall i :: 0 <= i < |s| ==> ShowsAt(s, from, i)
    }

    ghost predicate ShowsAt(s: string, from: nat, i: nat)
      requires i < |s| && buffer.Length == 2000
      reads this, buffer
    {
      s[i] != '\n' && Cursor(from, s[..i]) >= 80 * top ==>
        var k := Cursor(from, s[..i]) - 80 * top;
        k < 2000 && buffer[k].character == s[i] && buffer[k].color == fg + 16 * bg
    }

    /** A terminal as `init_tty` leaves it. */
    constructor (fg: nat, bg: nat)
      ensures Valid() && fresh(buffer) && paper == [] && top == 0 && this.fg == fg && this.bg == bg
    {
      buffer := new Cell[CELLS](_ => BLANK);
      line, pos := 0, 0;
      this.fg, this.bg := fg, bg;
      paper, top := [], 0;
    }

    /** The inner loop of `scroll`: a row moves up to the row before it. */
    method CopyRow(from: nat, to: nat)
      requires to + VGA_WIDTH == from && from + VGA_WIDTH <= buffer.Length
      modifies buffer
      ensures forall k :: to <= k < from ==> buffer[k] == old(buffer[k + VGA_WIDTH])
      ensures forall k :: 0 <= k < buffer.Length && !(to <= k < from) ==> buffer[k] == old(buffer[k])
    {
      for j := 0 to VGA_WIDTH
        invariant forall k :: to <= k < to + j ==> buffer[k] == old(buffer[k + VGA_WIDTH])
        invariant forall k :: 0 <= k < buffer.Length && !(to <= k < to + j) ==> buffer[k] == old(buffer[k])
      {
        buffer[to + j] := buffer[from + j];
      }
    }

    /** The first loop of `scroll`: every row takes the contents of the next. */
    method ShiftRows()
      requires buffer.Length == CELLS
      modifies buffer
      ensures forall k :: 0 <= k < CELLS - VGA_WIDTH ==> buffer[k] == old(buffer[k + VGA_WIDTH])
    {
      hide RowStart;
      RowsApart(0);
      for i := 1 to VGA_HEIGHT
        invariant RowStart(i - 1) == RowStart(i) - VGA_WIDTH && RowStart(i) <= CELLS
        invariant RowStart(VGA_HEIGHT) == CELLS
        invariant forall k :: 0 <= k < RowStart(i - 1) ==> buffer[k] == old(buffer[k + VGA_WIDTH])
        invariant forall k :: RowStart(i - 1) <= k < CELLS ==> buffer[k] == old(buffer[k])
      {
        RowsApart(i);
        RowsOrdered(i + 1);
        CopyRow(RowStart(i), RowStart(i - 1));
      }
    }

    /** Its second loop: the last row is cleared. */
    method ClearLastRow()
      requires buffer.Length == CELLS
      modifies buffer
      ensures forall k :: 0 <= k < CELLS - VGA_WIDTH ==> buffer[k] == old(buffer[k])
      ensures forall k :: CELLS - VGA_WIDTH <= k < CELLS ==> buffer[k] == BLANK
    {
      for i := 0 to VGA_WIDTH
        invariant forall k :: 0 <= k < CELLS - VGA_WIDTH ==> buffer[k] == old(buffer[k])
        invariant forall k :: CELLS - VGA_WIDTH <= k < CELLS - VGA_WIDTH + i ==> buffer[k] == BLANK
      {
        buffer[VGA_WIDTH * (VGA_HEIGHT - 1) + i] := MakeChar('\0', 0, 0);
      }
    }

    /** `scroll`: the view moves down one row. */
    method Scroll()
      requires Valid() && line == VGA_HEIGHT
      modifies this`line, this`pos, this`top, buffer
      ensures Valid() && top == old(top) + 1 && line == VGA_HEIGHT - 1 && pos == 0
      ensures forall k :: 0 <= k < 2000 ==> buffer[k] == if k < 1920 then old(buffer[k + 80]) else BLANK
    {
      hide RowStart, On;
      RowsApart(top);
      PastTheEnd(paper, RowStart(top + VGA_HEIGHT));
      ShiftRows();
      ClearLastRow();
      line := VGA_HEIGHT - 1;
      pos := 0;
      top := top + 1;
    }

    /** The newline branch of `putchar`. */
    method NewLine()
      requires Valid() && line < VGA_HEIGHT
      modifies this`line, this`pos, this`paper
      ensures Valid() && paper == Typed(old(paper), '\n', fg, bg) && line == old(line) + 1 && pos == 0
    {
      RowEnd(top + line, pos);
      line := line + 1;
      pos := 0;
      paper := Typed(paper, '\n', fg, bg);
    }

    /** The other branch. */
    method WriteCell(ch: char)
      requires Valid() && line < VGA_HEIGHT && ch != '\n'
      modifies this`line, this`pos, this`paper, buffer
      ensures Valid() && paper == Typed(old(paper), ch, fg, bg)
      ensures (line, pos) == if old(pos) == 79 then (old(line) + 1, 0) else (old(line), old(pos) + 1)
      ensures old(line * 80 + pos) < 2000 && buffer[..] == old(buffer[..])[old(line * 80 + pos) := Cell(ch, fg + 16 * bg)]
    {
      buffer[line * VGA_WIDTH + pos] := MakeChar(ch, fg, bg);
      pos := pos + 1;
      line := line + pos / VGA_WIDTH;
      pos := pos % VGA_WIDTH;
      paper := paper + [MakeChar(ch, fg, bg)];
    }

    /** `putchar`: every write is within the buffer. */
    method Putchar(ch: char)
      requires Valid()
      modifies this`line, this`pos, this`top, this`paper, buffer
      ensures Valid() && paper == Typed(old(paper), ch, fg, bg) && top == Scrolled(old(paper), old(top))
      ensures var row := if old(line) < 25 then old(line) else 24;
              && (line, pos) == (if ch == '\n' || old(pos) == 79 then (row + 1, 0) else (row, old(pos) + 1))
              && forall k :: 0 <= k < 2000 ==>
                   buffer[k] == if ch != '\n' && k == row * 80 + old(pos) then Cell(ch, fg + 16 * bg)
                                else if old(line) < 25 then old(buffer[k])
                                else if k < 1920 then old(buffer[k + 80])
                                else Cell('\0', 0)
    {
      hide Typed, On;
      if line >= VGA_HEIGHT {
        Scroll();
      }
      if ch == '\n' {
        NewLine();
      } else {
        WriteCell(ch);
      }
    }

    /** The loop of `print`. */
    method Print(s: string)
      requires Valid()
      modifies this`line, this`pos, this`top, this`paper, buffer
      ensures Valid() && paper == TypedAll(old(paper), s, fg, bg) && top == ScrolledAll(old(paper), old(top), s, fg, bg)
      ensures Shows(s, old(|paper|))
    {
      hide Typed, Scrolled, On;
      for i := 0 to |s|
        invariant Valid() && paper == TypedAll(old(paper), s[..i], fg, bg)
        invariant top == ScrolledAll(old(paper), old(top), s[..i], fg, bg)
      {
        assert s[..i + 1][..i] == s[..i];
        Putchar(s[i]);
      }
      assert s[..|s|] == s;
      forall i | 0 <= i < |s| ensures ShowsAt(s, |old(paper)|, i) {
        if s[i] != '\n' && Cursor(|old(paper)|, s[..i]) >= 80 * top {
          TypedAt(old(paper), s, i, fg, bg);
          CellOf(this, Cursor(|old(paper)|, s[..i]));
        }
      }
    }
  }

  /** The cell of the buffer in which a position of the paper that is in view is shown. */
  lemma CellOf(t: Tty, at: nat)
    requires t.Valid() && at < |t.paper| && at >= 80 * t.top
    ensures at - 80 * t.top < 2000 && t.buffer[at - 80 * t.top] == t.paper[at]
  {
  }

  /** `tty_terminals` and `active_tty`. */
  class Console {
    const ttys: seq<Tty>
    var active: nat

    ghost predicate Valid()
      reads this, ttys, set t | t in ttys :: t.buffer
    {
      && |ttys| == TERMINALS_NUMBER && active < TERMINALS_NUMBER
      && (forall i :: 0 <= i < |ttys| ==> ttys[i].Valid())
      && (forall i, j :: 0 <= i < j < |ttys| ==> ttys[i] != ttys[j] && ttys[i].buffer != ttys[j].buffer)
    }

    /** `set_tty`: a number out of range is ignored. */
    method SetTty(terminal: nat)
      requires Valid()
      modifies this`active
      ensures Valid() && active == if terminal < 7 then terminal else old(active)
    {
      if TERMINALS_NUMBER <= terminal {
        return;
      }
      active := terminal;
    }

    /** `print`: the active terminal shows the text, and no other terminal changes. */
    method Print(s: string)
      requires Valid()
      modifies ttys[active], ttys[active].buffer
      ensures Valid() && var t := ttys[active];
              t.paper == TypedAll(old(t.paper), s, t.fg, t.bg) && t.top == ScrolledAll(old(t.paper), old(t.top), s, t.fg, t.bg)
      ensures ttys[active].Shows(s, old(|ttys[active].paper|))
      ensures forall i :: 0 <= i < |ttys| && i != active ==> unchanged(ttys[i]) && unchanged(ttys[i].buffer)
    {
      hide TypedAll, ScrolledAll, On;
      ttys[active].Print(s);
    }
  }

  lemma RowEnd(row: nat, col: nat)
    requires col < VGA_WIDTH
    ensures (RowStart(row) + col) % VGA_WIDTH == col && RowStart(row + 1) == RowStart(row) + VGA_WIDTH
  {
  }

  lemma RowsOrdered(row: nat)
    requires row <= VGA_HEIGHT
    ensures RowStart(row) <= RowStart(VGA_HEIGHT)
  {
  }

  lemma PastTheEnd(paper: seq<Cell>, start: nat)
    requires |paper| <= start
    ensures forall k :: k >= start ==> On(paper, k) == BLANK
  {
  }

  lemma RowsApart(row: nat)
    ensures RowStart(0) == 0 && RowStart(row + 1) == RowStart(row) + VGA_WIDTH && RowStart(row + VGA_HEIGHT) == RowStart(row) + CELLS
  {
  }

  /**
   Where a stream leaves a fresh terminal: the first row in view is the one that brought the row of the last
   character's cursor onto the screen, and no further; a row filled to its end is not scrolled for yet.
   */
  lemma {:induction false} ViewIs(s: string, fg: nat, bg: nat)
    ensures var top := ScrolledAll([], 0, s, fg, bg);
            if s == [] then top == 0
            else
              var row := |TypedAll([], s[..|s| - 1], fg, bg)| / VGA_WIDTH;
              top == if row < VGA_HEIGHT then 0 else row - VGA_HEIGHT + 1
  {
    hide Typed;
    if |s| > 1 {
      var before := s[..|s| - 1];
      ViewIs(before, fg, bg);
      RowsGrow(TypedAll([], before[..|before| - 1], fg, bg), before[|before| - 1], fg, bg);
    }
  }

  /** One character moves the cursor by at most one row. */
  lemma RowsGrow(paper: seq<Cell>, ch: char, fg: nat, bg: nat)
    ensures |paper| / VGA_WIDTH <= |Typed(paper, ch, fg, bg)| / VGA_WIDTH <= |paper| / VGA_WIDTH + 1
  {
  }

  /** What one character does to the paper: its own cell in the two colors, or blanks to the end of the row. */
  lemma TypedIs(paper: seq<Cell>, ch: char, fg: nat, bg: nat)
    ensures var p := Typed(paper, ch, fg, bg);
            && paper <= p && |p| == Cursor(|paper|, [ch])
            && (ch != '\n' ==> |p| == |paper| + 1 && p[|paper|].character == ch && p[|paper|].color == fg + 16 * bg)
            && (ch == '\n' ==> |paper| < |p| <= |paper| + 80 && |p| % 80 == 0 &&
                               forall k :: |paper| <= k < |p| ==> p[k] == Cell('\0', 0))
  {
    assert [ch][..0] == [] && Cursor(|paper|, []) == |paper|;
  }

  lemma {:induction false} CursorIs(paper: seq<Cell>, s: string, fg: nat, bg: nat)
    ensures |TypedAll(paper, s, fg, bg)| == Cursor(|paper|, s)
  {
    if s != [] {
      CursorIs(paper, s[..|s| - 1], fg, bg);
      TypedLength(TypedAll(paper, s[..|s| - 1], fg, bg), s[|s| - 1], fg, bg);
    }
  }

  lemma TypedLength(paper: seq<Cell>, ch: char, fg: nat, bg: nat)
    ensures |Typed(paper, ch, fg, bg)| == if ch == '\n' then (|paper| / 80 + 1) * 80 else |paper| + 1
  {
  }

  /** Every character of a text is on the paper at the cursor it was typed at, in the two colors. */
  lemma {:induction false} TypedAt(paper: seq<Cell>, s: string, i: nat, fg: nat, bg: nat)
    requires i < |s| && s[i] != '\n'
    ensures var p, k := TypedAll(paper, s, fg, bg), Cursor(|paper|, s[..i]);
            k < |p| && p[k].character == s[i] && p[k].color == fg + 16 * bg
  {
    hide Typed;
    var before, last := s[..|s| - 1], s[|s| - 1];
    TypedIs(TypedAll(paper, before, fg, bg), last, fg, bg);
    if i < |s| - 1 {
      assert before[..i] == s[..i];
      TypedAt(paper, before, i, fg, bg);
    } else {
      CursorIs(paper, before, fg, bg);
    }
  }

  /** And nothing else is: a cell that no character was typed into is blank. */
  lemma {:induction false} RestIsBlank(paper: seq<Cell>, s: string, k: nat, fg: nat, bg: nat)
    requires |paper| <= k < |TypedAll(paper, s, fg, bg)|
    requires forall i :: 0 <= i < |s| && s[i] != '\n' ==> Cursor(|paper|, s[..i]) != k
    ensures TypedAll(paper, s, fg, bg)[k] == Cell('\0', 0)
  {
    hide Typed;
    var before, last := s[..|s| - 1], s[|s| - 1];
    var p := TypedAll(paper, before, fg, bg);
    TypedIs(p, last, fg, bg);
    CursorIs(paper, before, fg, bg);
    if k < |p| {
      forall i | 0 <= i < |before| && before[i] != '\n' ensures Cursor(|paper|, before[..i]) != k {
        assert before[..i] == s[..i] && s[i] == before[i];
      }
      RestIsBlank(paper, before, k, fg, bg);
    }
  }

  /** Text without a newline takes one cell after another. */
  lemma {:induction false} CursorRuns(from: nat, s: string)
    requires '\n' !in s
    ensures Cursor(from, s) == from + |s|
  {
    if s != [] {
      CursorRuns(from, s[..|s| - 1]);
    }
  }

  /** After a newline a character stands as far into the next row as there are characters between. */
  lemma {:induction false} CursorAfterNewline(from: nat, a: string, b: string)
    requires '\n' !in b && |b| < 80
    ensures var at, at' := Cursor(from, a), Cursor(from, a + ['\n'] + b);
            at' / 80 == at / 80 + 1 && at' % 80 == |b|
  {
    var s := a + ['\n'] + b;
    if b == [] {
      assert s[..|s| - 1] == a && s[|s| - 1] == '\n';
    } else {
      var b' := b[..|b| - 1];
      assert s[..|s| - 1] == a + ['\n'] + b' && s[|s| - 1] == b[|b| - 1];
      CursorAfterNewline(from, a, b');
      NextColumn(Cursor(from, a + ['\n'] + b'));
    }
  }

  lemma NextColumn(at: nat)
    requires at % 80 < 79
    ensures (at + 1) / 80 == at / 80 && (at + 1) % 80 == at % 80 + 1
  {
  }

  /** On a fresh terminal, text without a newline is the paper, character for character. */
  lemma PaperIsText(s: string, fg: nat, bg: nat, i: nat)
    requires '\n' !in s && i < |s|
    ensures var p := TypedAll([], s, fg, bg);
            |p| == |s| && p[i].character == s[i] && p[i].color == fg + 16 * bg
  {
    CursorIs([], s, fg, bg);
    CursorRuns(0, s);
    CursorRuns(0, s[..i]);
    TypedAt([], s, i, fg, bg);
  }

  /** Text once typed stays where it is on the paper; only the view moves. */
  lemma {:induction false} PaperGrows(paper: seq<Cell>, s: string, fg: nat, bg: nat)
    ensures paper <= TypedAll(paper, s, fg, bg)
  {
    if s != [] {
      PaperGrows(paper, s[..|s| - 1], fg, bg);
    }
  }

  /** Printing in two calls leaves what printing in one call leaves. */
  lemma {:induction false} PrintsCompose(paper: seq<Cell>, top: nat, a: string, b: string, fg: nat, bg: nat)
    ensures var mid := TypedAll(paper, a, fg, bg);
            && TypedAll(paper, a + b, fg, bg) == TypedAll(mid, b, fg, bg)
            && ScrolledAll(paper, top, a + b, fg, bg) == ScrolledAll(mid, ScrolledAll(paper, top, a, fg, bg), b, fg, bg)
    decreases b
  {
    hide Typed, Scrolled;
    if b == [] {
      assert a + b == a;
    } else {
      PrintsCompose(paper, top, a, b[..|b| - 1], fg, bg);
      assert (a + b)[..|a + b| - 1] == a + b[..|b| - 1];
    }
  }
}
