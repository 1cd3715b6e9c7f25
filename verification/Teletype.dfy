/** The 80 by 25 text screen of src/drivers/vga.c against an unbounded teletype: rows of 80 cells
    that only ever grow at the end. */
module Teletype {
  import opened Machine

  type schar = x: int | -128 <= x < 128
  type Row = r: seq<u16> | |r| == 80 witness seq(80, _ => 0)

  // ---------------------------------------------------------------- cells

  /** make_entry: `(uint16_t)c | (color << 8)`, where c is a signed char. */
  function MakeEntry(c: schar, color: byte): (e: u16)
  {
    EntryFits(c, color);
    BitOr(c % 0x1_0000, Shl(color, 8))
  }

  // (a << k) + b  |  c << k
  lemma {:induction false} OrAbove(a: nat, b: nat, c: nat, k: nat)
    requires b < Shl(1, k)
    ensures BitOr(Shl(a, k) + b, Shl(c, k)) == Shl(BitOr(a, c), k) + b
  {
    if k != 0 {
      OrAbove(a, b / 2, c, k - 1);
      OrAboveStep(Shl(a, k - 1), b, Shl(c, k - 1), Shl(BitOr(a, c), k - 1));
    }
  }

  lemma {:induction false} OrAboveStep(t: nat, b: nat, w: nat, z: nat)
    requires BitOr(t + b / 2, w) == z + b / 2
    ensures BitOr(2 * t + b, 2 * w) == 2 * z + b
  {
    assert (2 * t + b) / 2 == t + b / 2;
    assert 2 * w / 2 == w;
  }

  lemma {:induction false} OrBounded(x: nat, y: nat, k: nat)
    requires x < Shl(1, k) && y < Shl(1, k)
    ensures x <= BitOr(x, y) < Shl(1, k)
  {
    if k != 0 && (x != 0 || y != 0) {
      OrBounded(x / 2, y / 2, k - 1);
    }
  }

  lemma {:induction false} OrFromZero(y: nat)
    ensures BitOr(0, y) == y
  {
    if y != 0 {
      OrFromZero(y / 2);
    }
  }

  lemma {:induction false} EntryPlain(c: nat, color: nat)
    requires c < 0x80
    ensures BitOr(c, Shl(color, 8)) == 0x100 * color + c
  {
    ShlByte(0);
    ShlByte(1);
    ShlByte(color);
    OrAbove(0, c, color, 8);
    OrFromZero(color);
  }

  lemma {:induction false} EntryExtended(b: nat, color: nat)
    requires b < 0x100 && color < 0x100
    ensures BitOr(0xFF00 + b, Shl(color, 8)) == 0xFF00 + b
  {
    ShlByte(1);
    ShlByte(0xFF);
    OrAbove(0xFF, b, color, 8);
    OrBounded(0xFF, color, 8);
    ShlByte(BitOr(0xFF, color));
  }

  lemma {:induction false} EntryFits(c: schar, color: byte)
    ensures BitOr(c % 0x1_0000, Shl(color, 8)) < 0x1_0000
    ensures 0 <= c ==> BitOr(c % 0x1_0000, Shl(color, 8)) == 0x100 * color + c
    ensures c < 0 ==> BitOr(c % 0x1_0000, Shl(color, 8)) == 0xFF00 + (c + 0x100)
  {
    CharWord(c);
    EntryOf(c % 0x1_0000, c, color);
  }

  // The character as a 16-bit word.
  lemma CharWord(c: schar)
    ensures c % 0x1_0000 == if 0 <= c then c else 0xFF00 + (c + 0x100)
  {
  }

  lemma {:induction false} EntryOf(w: nat, c: schar, color: byte)
    requires w == if 0 <= c then c else 0xFF00 + (c + 0x100)
    ensures BitOr(w, Shl(color, 8)) < 0x1_0000
    ensures BitOr(w, Shl(color, 8)) == if 0 <= c then 0x100 * color + c else 0xFF00 + (c + 0x100)
  {
    if 0 <= c {
      EntryPlain(c, color);
    } else {
      EntryExtended(c + 0x100, color);
    }
  }

  /** The cell shows the character in the colour asked for exactly when the character is 7-bit (or
      the colour is 0xFF, which sign extension forces anyway). */
  lemma {:induction false} EntryShows(c: schar, color: byte)
    ensures MakeEntry(c, color) % 0x100 == c % 0x100
    ensures MakeEntry(c, color) / 0x100 == color <==> 0 <= c || color == 0xFF
  {
    EntryFits(c, color);
  }

  function Blank(color: byte): u16 {
    MakeEntry(32, color)
  }

  // ---------------------------------------------------------------- the teletype

  /** Rows written so far, at least 25; the cursor is on one of them. */
  datatype Paper = Paper(rows: seq<Row>, row: nat, col: nat)

  function BlankRow(color: byte): Row {
    seq(80, _ => Blank(color))
  }

  function FreshPaper(color: byte): Paper {
    Paper(seq(25, _ => BlankRow(color)), 0, 0)
  }

  predicate OnPaper(p: Paper) {
    25 <= |p.rows| && p.row < |p.rows| <= p.row + 25 && p.col < 80
  }

  function Strike(p: Paper, col: nat, e: u16): Paper
    requires OnPaper(p) && col < 80
  {
    p.(rows := p.rows[p.row := p.rows[p.row][col := e]])
  }

  /** The carriage at (row, col), a new row being fed when it is past the last. */
  function Settle(p: Paper, row: nat, col: nat, color: byte): Paper {
    var r := if col >= 80 then row + 1 else row;
    Paper(if r >= |p.rows| then p.rows + [BlankRow(color)] else p.rows, r, if col >= 80 then 0 else col)
  }

  function TabStop(col: nat): nat {
    (col + 8) / 8 * 8
  }

  function Type(p: Paper, c: schar, color: byte): Paper
    requires OnPaper(p)
  {
    if c == 10 then Settle(p, p.row + 1, 0, color)
    else if c == 13 then Settle(p, p.row, 0, color)
    else if c == 9 then Settle(p, p.row, TabStop(p.col), color)
    else if c == 8 then
      if p.col > 0 then Settle(Strike(p, p.col - 1, Blank(color)), p.row, p.col - 1, color)
      else Settle(p, p.row, p.col, color)
    else Settle(Strike(p, p.col, MakeEntry(c, color)), p.row, p.col + 1, color)
  }

  lemma TypeStaysOn(p: Paper, c: schar, color: byte)
    requires OnPaper(p)
    ensures OnPaper(Type(p, c, color)) && |p.rows| <= |Type(p, c, color).rows| <= |p.rows| + 1
  {
  }

  predicate Printable(c: schar) {
    c != 8 && c != 9 && c != 10 && c != 13
  }

  lemma TypeOne(p: Paper, c: schar, color: byte)
    requires OnPaper(p) && p.col + 1 < 80 && Printable(c)
    ensures Type(p, c, color) == Strike(p, p.col, MakeEntry(c, color)).(col := p.col + 1)
  {
  }

  /** Printable characters appear one after the other on their row, and touch no other. */
  lemma {:induction false} TypesInOrder(p: Paper, s: seq<schar>, color: byte)
    requires OnPaper(p) && p.col + |s| < 80
    requires forall c | c in s :: Printable(c)
    ensures Shown(p, s, color, TypeAll(p, s, color))
    decreases |s|
  {
    if s != [] {
      assert Printable(s[0]);
      TypeOne(p, s[0], color);
      TypeStaysOn(p, s[0], color);
      TypesInOrder(Type(p, s[0], color), s[1..], color);
      ShownMore(p, s, color, Type(p, s[0], color), TypeAll(p, s, color), MakeEntry(s[0], color));
    }
  }

  /** q is the paper p with the characters of s on the cursor's row from the cursor on. */
  ghost predicate Shown(p: Paper, s: seq<schar>, color: byte, q: Paper)
    requires OnPaper(p) && p.col + |s| < 80
  {
    && q.row == p.row && q.col == p.col + |s| && |q.rows| == |p.rows|
    && (forall i :: 0 <= i < |p.rows| && i != p.row ==> q.rows[i] == p.rows[i])
    && (forall j :: 0 <= j < p.col || p.col + |s| <= j < 80 ==> q.rows[p.row][j] == p.rows[p.row][j])
    && (forall k :: 0 <= k < |s| ==> q.rows[p.row][p.col + k] == MakeEntry(s[k], color))
  }

  lemma {:induction false} ShownMore(p: Paper, s: seq<schar>, color: byte, p1: Paper, q: Paper, e: u16)
    requires OnPaper(p) && s != [] && p.col + |s| < 80 && e == MakeEntry(s[0], color)
    requires p1 == Strike(p, p.col, e).(col := p.col + 1) && OnPaper(p1) && Shown(p1, s[1..], color, q)
    ensures Shown(p, s, color, q)
  {
    forall k | 0 <= k < |s|
      ensures q.rows[p.row][p.col + k] == MakeEntry(s[k], color)
    {
      if k == 0 {
        assert q.rows[p.row][p.col] == p1.rows[p.row][p.col];
      } else {
        assert q.rows[p1.row][p1.col + (k - 1)] == MakeEntry(s[1..][k - 1], color);
      }
    }
  }

  /** A backspace takes back the character just typed on the row: the cursor returns and the cell is
      blank. At the left edge, where the character before wrapped, it does nothing. */
  lemma BackspaceTakesBack(p: Paper, c: schar, color: byte)
    requires OnPaper(p) && Printable(c)
    ensures OnPaper(Type(p, c, color))
    ensures p.col < 79 ==> Type(Type(p, c, color), 8, color) == Strike(p, p.col, Blank(color))
    ensures p.col == 79 ==> Type(Type(p, c, color), 8, color) == Type(p, c, color)
  {
    if p.col < 79 {
      var struck := p.rows[p.row][p.col := MakeEntry(c, color)];
      assert struck[p.col := Blank(color)] == p.rows[p.row][p.col := Blank(color)];
      assert p.rows[p.row := struck][p.row := struck[p.col := Blank(color)]]
        == p.rows[p.row := struck[p.col := Blank(color)]];
    }
  }

  /** A newline starts a row at its left edge, feeding a blank one at the end of the paper, and a
      return goes back on the same row; neither touches what was typed. */
  lemma NewlineAndReturn(p: Paper, color: byte)
    requires OnPaper(p)
    ensures var q := Type(p, 10, color);
      q.row == p.row + 1 && q.col == 0 && q.rows == if p.row + 1 == |p.rows| then p.rows + [BlankRow(color)] else p.rows
    ensures Type(p, 13, color) == p.(col := 0)
  {
  }

  function TypeAll(p: Paper, s: seq<schar>, color: byte): Paper
    requires OnPaper(p)
    decreases |s|
  {
    if s == [] then p else TypeStaysOn(p, s[0], color); TypeAll(Type(p, s[0], color), s[1..], color)
  }

  // ---------------------------------------------------------------- the screen

  datatype Screen = Screen(cells: seq<u16>, row: nat, col: nat)

  predicate InRange(s: Screen) {
    |s.cells| == 2000 && s.row < 25 && s.col < 80
  }

  function Cleared(color: byte): Screen {
    Screen(seq(2000, _ => Blank(color)), 0, 0)
  }

  function Scroll(cells: seq<u16>, color: byte): seq<u16>
    requires |cells| == 2000
  {
    seq(2000, i requires 0 <= i < 2000 => Scrolled(cells, color, i))
  }

  function Scrolled(cells: seq<u16>, color: byte, i: nat): u16
    requires |cells| == 2000 && i < 2000
  {
    if i < 1920 then cells[i + 80] else Blank(color)
  }

  /** The tail of vga_putchar: wrap, then scroll. */
  function Finish(cells: seq<u16>, row: nat, col: nat, color: byte): Screen
    requires |cells| == 2000
  {
    var r := if col >= 80 then row + 1 else row;
    var c := if col >= 80 then 0 else col;
    if r >= 25 then Screen(Scroll(cells, color), 24, c) else Screen(cells, r, c)
  }

  /** vga_putchar */
  function PutChar(s: Screen, c: schar, color: byte): Screen
    requires InRange(s)
  {
    var at := s.row * 80 + s.col;
    if c == 10 then Finish(s.cells, s.row + 1, 0, color)
    else if c == 13 then Finish(s.cells, s.row, 0, color)
    else if c == 9 then Finish(s.cells, s.row, TabStop(s.col), color)
    else if c == 8 then
      if s.col > 0 then Finish(s.cells[at - 1 := Blank(color)], s.row, s.col - 1, color)
      else Finish(s.cells, s.row, s.col, color)
    else Finish(s.cells[at := MakeEntry(c, color)], s.row, s.col + 1, color)
  }

  // ---------------------------------------------------------------- refinement

  function CellAt(cells: seq<u16>, r: nat, c: nat): u16
    requires |cells| == 2000 && r < 25 && c < 80
  {
    cells[80 * r + c]
  }

  /** The screen shows the paper's last 25 rows, the cursor in the same place. */
  ghost predicate Shows(s: Screen, p: Paper) {
    && InRange(s) && OnPaper(p)
    && s.col == p.col && p.row == s.row + (|p.rows| - 25)
    && Agree(s.cells, p.rows)
  }

  ghost predicate Agree(cells: seq<u16>, rows: seq<Row>)
    requires |cells| == 2000 && 25 <= |rows|
  {
    forall r: nat, c: nat :: r < 25 && c < 80 ==> CellAt(cells, r, c) == rows[|rows| - 25 + r][c]
  }

  lemma StrikeAgrees(cells: seq<u16>, rows: seq<Row>, row: nat, col: nat, e: u16)
    requires |cells| == 2000 && 25 <= |rows| && row < 25 && col < 80 && Agree(cells, rows)
    ensures var i := |rows| - 25 + row; Agree(cells[80 * row + col := e], rows[i := rows[i][col := e]])
  {
    var i := |rows| - 25 + row;
    var cells', rows' := cells[80 * row + col := e], rows[i := rows[i][col := e]];
    forall r: nat, c: nat | r < 25 && c < 80
      ensures CellAt(cells', r, c) == rows'[|rows'| - 25 + r][c]
    {
      assert CellAt(cells, r, c) == rows[|rows| - 25 + r][c];
    }
  }

  lemma ScrollAgrees(cells: seq<u16>, rows: seq<Row>, color: byte)
    requires |cells| == 2000 && 25 <= |rows| && Agree(cells, rows)
    ensures Agree(Scroll(cells, color), rows + [BlankRow(color)])
  {
    var cells', rows' := Scroll(cells, color), rows + [BlankRow(color)];
    forall r: nat, c: nat | r < 25 && c < 80
      ensures CellAt(cells', r, c) == rows'[|rows'| - 25 + r][c]
    {
      if r < 24 {
        assert CellAt(cells, r + 1, c) == rows[|rows| - 25 + (r + 1)][c];
      }
    }
  }

  lemma FinishRefines(cells: seq<u16>, p: Paper, row: nat, row': nat, col: nat, color: byte)
    requires |cells| == 2000 && 25 <= |p.rows| && Agree(cells, p.rows)
    requires row == row' + (|p.rows| - 25) && row' <= 25 && col <= 80 && (row' == 25 ==> col < 80)
    ensures Shows(Finish(cells, row', col, color), Settle(p, row, col, color))
  {
    ScrollAgrees(cells, p.rows, color);
  }

  lemma StrikeRefines(s: Screen, p: Paper, at: nat, e: u16, col: nat, color: byte)
    requires Shows(s, p) && at < 80 && col <= 80
    ensures Shows(Finish(s.cells[80 * s.row + at := e], s.row, col, color), Settle(Strike(p, at, e), p.row, col, color))
  {
    StrikeAgrees(s.cells, p.rows, s.row, at, e);
    FinishRefines(s.cells[80 * s.row + at := e], Strike(p, at, e), p.row, s.row, col, color);
  }

  /** A tab stop is the next multiple of 8. */
  lemma TabStopFits(col: nat)
    requires col < 80
    ensures col < TabStop(col) <= col + 8 && TabStop(col) % 8 == 0 && TabStop(col) <= 80
  {
  }

  /** Printing a character on the screen is typing it on the paper. */
  lemma PutCharRefines(s: Screen, p: Paper, c: schar, color: byte)
    requires Shows(s, p)
    ensures Shows(PutChar(s, c, color), Type(p, c, color))
  {
    if Printable(c) {
      StrikeRefines(s, p, s.col, MakeEntry(c, color), s.col + 1, color);
    } else if c == 8 {
      BackspaceRefines(s, p, color);
    } else {
      CarriageRefines(s, p, c, color);
    }
  }

  lemma CarriageRefines(s: Screen, p: Paper, c: schar, color: byte)
    requires Shows(s, p) && (c == 9 || c == 10 || c == 13)
    ensures Shows(PutChar(s, c, color), Type(p, c, color))
  {
    match c
    case 10 => FinishRefines(s.cells, p, p.row + 1, s.row + 1, 0, color);
    case 13 => FinishRefines(s.cells, p, p.row, s.row, 0, color);
    case 9 =>
      TabStopFits(s.col);
      FinishRefines(s.cells, p, p.row, s.row, TabStop(s.col), color);
  }

  lemma BackspaceRefines(s: Screen, p: Paper, color: byte)
    requires Shows(s, p)
    ensures Shows(PutChar(s, 8, color), Type(p, 8, color))
  {
    if s.col > 0 {
      StrikeRefines(s, p, s.col - 1, Blank(color), s.col - 1, color);
    } else {
      FinishRefines(s.cells, p, p.row, s.row, s.col, color);
    }
  }

  // ---------------------------------------------------------------- streams

  /** A character in the colour then current. */
  datatype Event = Event(c: schar, color: byte)

  ghost function Display(s: Screen, p: Paper, evs: seq<Event>): Screen
    requires Shows(s, p)
    decreases |evs|
  {
    if evs == [] then s else
    PutCharRefines(s, p, evs[0].c, evs[0].color);
    Display(PutChar(s, evs[0].c, evs[0].color), Type(p, evs[0].c, evs[0].color), evs[1..])
  }

  function Typed(p: Paper, evs: seq<Event>): Paper
    requires OnPaper(p)
    decreases |evs|
  {
    if evs == [] then p else
    TypeStaysOn(p, evs[0].c, evs[0].color);
    Typed(Type(p, evs[0].c, evs[0].color), evs[1..])
  }

  lemma {:induction false} DisplayRefines(s: Screen, p: Paper, evs: seq<Event>)
    requires Shows(s, p)
    ensures Shows(Display(s, p, evs), Typed(p, evs))
    decreases |evs|
  {
    if evs != [] {
      PutCharRefines(s, p, evs[0].c, evs[0].color);
      DisplayRefines(PutChar(s, evs[0].c, evs[0].color), Type(p, evs[0].c, evs[0].color), evs[1..]);
    }
  }

  lemma ClearedShows(color: byte)
    ensures Shows(Cleared(color), FreshPaper(color))
  {
  }

  /** From a cleared screen on, for every stream of characters and colours, the 25 rows on screen
      are the last 25 rows of the teletype fed the same stream. */
  lemma {:induction false} ScreenIsTeletype(color: byte, evs: seq<Event>)
    ensures Shows(Cleared(color), FreshPaper(color))
    ensures Shows(Display(Cleared(color), FreshPaper(color), evs), Typed(FreshPaper(color), evs))
  {
    ClearedShows(color);
    DisplayRefines(Cleared(color), FreshPaper(color), evs);
  }
}
