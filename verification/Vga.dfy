/** The text-mode driver's code (src/drivers/vga.c): characters written, wrapped and scrolled in a
    fixed buffer. Moving the hardware cursor is port output and leaves no trace here. */
module Vga {
  import opened Machine
  import opened Teletype

  class Display {
    const buffer: array<u16>
    var row: nat
    var col: nat
    var color: byte

    ghost function View(): Screen
      reads this, buffer
    {
      Screen(buffer[..], row, col)
    }

    ghost predicate Valid()
      reads this, buffer
    {
      InRange(View())
    }

    constructor (buffer: array<u16>)
      requires buffer.Length == 2000
      ensures this.buffer == buffer && Valid() && color == 0x0F
    {
      this.buffer, row, col, color := buffer, 0, 0, 0x0F;
    }

    method Clear()
      requires Valid()
      modifies this, buffer
      ensures Valid() && View() == Cleared(old(color)) && color == old(color)
    {
      var blank := MakeEntry(32, color);
      for i := 0 to 2000
        invariant color == old(color) && forall j :: 0 <= j < i ==> buffer[j] == blank
      {
        buffer[i] := blank;
      }
      row := 0;
      col := 0;
      assert buffer[..] == Cleared(color).cells;
    }

    // fg | (bg << 4), cut to a byte
    method SetColor(fg: byte, bg: byte)
      modifies this`color
      ensures color == BitOr(fg, Shl(bg, 4)) % 0x100
      ensures fg < 16 && bg < 16 ==> color == fg + 16 * bg
    {
      if fg < 16 && bg < 16 {
        NibbleOr(fg, bg);
        ByteKept(BitOr(fg, Shl(bg, 4)));
      }
      color := BitOr(fg, Shl(bg, 4)) % 0x100;
    }

    method ScrollUp()
      requires buffer.Length == 2000
      modifies buffer
      ensures buffer[..] == Scroll(old(buffer[..]), color)
    {
      for i := 0 to 1920
        invariant forall j :: 0 <= j < 2000 ==> buffer[j] == old(if j < i then buffer[j + 80] else buffer[j])
      {
        buffer[i] := buffer[i + 80];
      }
      var blank := MakeEntry(32, color);
      for i := 1920 to 2000
        invariant forall j :: 0 <= j < 1920 ==> buffer[j] == old(buffer[j + 80])
        invariant forall j :: 1920 <= j < i ==> buffer[j] == blank
      {
        buffer[i] := blank;
      }
      assert buffer[..] == Scroll(old(buffer[..]), color);
    }

    // The tail of vga_putchar.
    method Settle()
      requires buffer.Length == 2000 && col <= 80 && row <= 25 && (row == 25 ==> col < 80)
      modifies this`row, this`col, buffer
      ensures Valid() && View() == Finish(old(buffer[..]), old(row), old(col), color)
    {
      if col >= 80 {
        col := 0;
        row := row + 1;
      }
      if row >= 25 {
        ScrollUp();
        row := 24;
      }
    }

    /** vga_putchar; PutCharRefines says what it means on the teletype. */
    method PutChar(c: schar)
      requires Valid()
      modifies this`row, this`col, buffer
      ensures Valid() && View() == Teletype.PutChar(old(View()), c, color)
    {
      if c == 10 {
        col := 0;
        row := row + 1;
      } else if c == 13 {
        col := 0;
      } else if c == 9 {
        TabStopFits(col);
        col := NextTab(col);
      } else if c == 8 {
        if col > 0 {
          col := col - 1;
          buffer[row * 80 + col] := MakeEntry(32, color);
        }
      } else {
        buffer[row * 80 + col] := MakeEntry(c, color);
        col := col + 1;
      }
      Settle();
    }

    /** vga_puts: the screen goes on showing the end of what a teletype would have typed. */
    method Puts(s: seq<schar>, ghost paper: Paper)
      requires Valid() && Shows(View(), paper)
      modifies this`row, this`col, buffer
      ensures Valid() && Shows(View(), TypeAll(paper, s, color))
    {
      ghost var p := paper;
      var i := 0;
      while i < |s|
        invariant i <= |s| && Valid() && Shows(View(), p)
        invariant TypeAll(paper, s, color) == TypeAll(p, s[i..], color)
      {
        PutCharRefines(View(), p, s[i], color);
        PutChar(s[i]);
        p := Type(p, s[i], color);
        i := i + 1;
      }
    }
  }

  // `(col + 8) & ~7`
  method NextTab(col: nat) returns (r: nat)
    requires col < 80
    ensures r == TabStop(col)
  {
    TabMask((col + 8) / 8, (col + 8) % 8);
    r := BitAnd(col + 8, 0xFFFFFFF8);
  }

  lemma {:induction false} TabMask(a: nat, b: nat)
    requires b < 8 && a < 0x100
    ensures BitAnd(8 * a + b, 0xFFFFFFF8) == 8 * a
  {
    ShlValues(a);
    ShlValues(1);
    ShlValues(0x1FFFFFFF);
    AndHighMask(a, b, 0x1FFFFFFF, 3);
    AndLowMask(0, a, 29);
    LongMask();
    ShlZero(29);
  }

  lemma {:induction false} LongMask()
    ensures Shl(1, 29) == 0x2000_0000
  {
    ShlValues(1);
    assert Shl(1, 22) == 4 * Shl(1, 20);
    assert Shl(1, 24) == 4 * Shl(1, 22);
    assert Shl(1, 26) == 4 * Shl(1, 24);
    assert Shl(1, 28) == 4 * Shl(1, 26);
  }

  lemma {:induction false} ShlZero(k: nat)
    ensures Shl(0, k) == 0
  {
    if k != 0 {
      ShlZero(k - 1);
    }
  }

  lemma ByteKept(x: nat)
    requires x < 0x100
    ensures x % 0x100 == x
  {
  }

  lemma {:induction false} NibbleOr(fg: byte, bg: byte)
    requires fg < 16 && bg < 16
    ensures BitOr(fg, Shl(bg, 4)) == fg + 16 * bg
  {
    ShlValues(1);
    ShlValues(0);
    ShlValues(bg);
    assert Shl(1, 4) == 2 * Shl(1, 3);
    assert Shl(bg, 4) == 2 * Shl(bg, 3);
    ShlZero(4);
    OrAbove(0, fg, bg, 4);
    OrFromZero(bg);
  }
}
