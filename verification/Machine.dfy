/** Unsigned 32-bit arithmetic and the C bit operators on non-negative integers.
    A shift by k is multiplication or division by 2^k, as the C standard defines it
    for unsigned operands; `&` and `|` are defined bit by bit. */
module Machine {

  type byte = x: int | 0 <= x < 0x100
  type u16 = x: int | 0 <= x < 0x1_0000
  type u32 = x: int | 0 <= x < 0x1_0000_0000
  type int32 = x: int | -0x8000_0000 <= x < 0x8000_0000

  /** The value a 32-bit unsigned register holds after a computation whose exact result is x. */
  function Wrap(x: int): u32 {
    x % 0x1_0000_0000
  }

  /** The value of a signed 32-bit register after a computation whose exact result is x. */
  function Signed(x: int): int32 {
    var w := Wrap(x);
    if w < 0x8000_0000 then w else w - 0x1_0000_0000
  }

  // One wrap at most.
  lemma SignedNear(x: int)
    requires -0x8000_0000 <= x < 0x1_8000_0000
    ensures Signed(x) == if x < 0x8000_0000 then x else x - 0x1_0000_0000
  {
  }

  /** C's division, which truncates toward 0. */
  function Quotient(a: int, b: int): int
    requires b != 0
  {
    if a >= 0 then (if b > 0 then a / b else 0 - a / (0 - b))
    else (if b > 0 then 0 - (0 - a) / b else (0 - a) / (0 - b))
  }

  lemma WrapSmall(x: nat)
    requires x < 0x1_0000_0000
    ensures Wrap(x) == x
  {
  }

  /** `x << k`, exactly. */
  function Shl(x: nat, k: nat): nat {
    if k == 0 then x else 2 * Shl(x, k - 1)
  }

  function BitAnd(x: nat, y: nat): nat
    decreases x
  {
    if x == 0 then 0
    else 2 * BitAnd(x / 2, y / 2) + (if x % 2 == 1 && y % 2 == 1 then 1 else 0)
  }

  function BitOr(x: nat, y: nat): nat
    decreases x + y
  {
    if x == 0 && y == 0 then 0
    else 2 * BitOr(x / 2, y / 2) + (if x % 2 == 1 || y % 2 == 1 then 1 else 0)
  }

  // `x & ((1 << k) - 1)` keeps the low k bits: x is (a << k) + b.
  lemma {:induction false} AndLowMask(a: nat, b: nat, k: nat)
    requires b < Shl(1, k)
    ensures BitAnd(Shl(a, k) + b, Shl(1, k) - 1) == b
  {
    if k == 0 {
      AndZero(a);
    } else {
      AndLowMask(a, b / 2, k - 1);
      LowMaskStep(Shl(a, k - 1), b, Shl(1, k - 1));
    }
  }

  lemma {:induction false} LowMaskStep(t: nat, b: nat, p: nat)
    requires 1 <= p
    requires BitAnd(t + b / 2, p - 1) == b / 2
    ensures BitAnd(2 * t + b, 2 * p - 1) == b
  {
    assert (2 * t + b) / 2 == t + b / 2;
    assert (2 * p - 1) / 2 == p - 1;
  }

  lemma {:induction false} AndZero(x: nat)
    ensures BitAnd(x, 0) == 0
  {
    if x != 0 {
      AndZero(x / 2);
    }
  }

  // A mask whose low k bits are clear acts on the bits above them alone.
  lemma {:induction false} AndHighMask(a: nat, b: nat, m: nat, k: nat)
    requires b < Shl(1, k)
    ensures BitAnd(Shl(a, k) + b, Shl(m, k)) == Shl(BitAnd(a, m), k)
  {
    if k != 0 {
      AndHighMask(a, b / 2, m, k - 1);
      HighMaskStep(Shl(a, k - 1), b, Shl(m, k - 1), Shl(BitAnd(a, m), k - 1));
    }
  }

  lemma {:induction false} HighMaskStep(t: nat, b: nat, w: nat, z: nat)
    requires BitAnd(t + b / 2, w) == z
    ensures BitAnd(2 * t + b, 2 * w) == 2 * z
  {
    assert (2 * t + b) / 2 == t + b / 2;
    assert 2 * w / 2 == w;
  }

  // `|` of operands without a common bit position is addition.
  lemma {:induction false} OrDisjoint(a: nat, b: nat, k: nat)
    requires b < Shl(1, k)
    ensures BitOr(Shl(a, k), b) == Shl(a, k) + b
  {
    if k == 0 {
      OrZero(a);
    } else {
      OrDisjoint(a, b / 2, k - 1);
      OrStep(Shl(a, k - 1), b);
    }
  }

  lemma {:induction false} OrStep(t: nat, b: nat)
    requires BitOr(t, b / 2) == t + b / 2
    ensures BitOr(2 * t, b) == 2 * t + b
  {
    assert 2 * t / 2 == t;
  }

  lemma {:induction false} OrZero(a: nat)
    ensures BitOr(a, 0) == a
  {
    if a != 0 {
      OrZero(a / 2);
    }
  }

  lemma {:induction false} ShlValues(x: nat)
    ensures Shl(x, 1) == 2 * x && Shl(x, 3) == 8 * x && Shl(x, 10) == 0x400 * x
    ensures Shl(x, 12) == 0x1000 * x && Shl(x, 20) == 0x10_0000 * x
  {
    assert Shl(x, 1) == 2 * x;
    assert Shl(x, 2) == 4 * x;
    assert Shl(x, 4) == 16 * x;
    assert Shl(x, 6) == 64 * x;
    assert Shl(x, 8) == 0x100 * x;
    assert Shl(x, 10) == 0x400 * x;
    assert Shl(x, 12) == 0x1000 * x;
    assert Shl(x, 14) == 0x4000 * x;
    assert Shl(x, 16) == 0x1_0000 * x;
    assert Shl(x, 18) == 0x4_0000 * x;
  }

  lemma {:induction false} ShlByte(x: nat)
    ensures Shl(x, 6) == 0x40 * x && Shl(x, 8) == 0x100 * x
  {
    assert Shl(x, 1) == 2 * x;
    assert Shl(x, 3) == 8 * x;
    assert Shl(x, 5) == 32 * x;
    assert Shl(x, 7) == 128 * x;
  }

  // The masks of the page-table code, for every 32-bit operand.
  lemma FrameMask(x: u32)
    ensures BitAnd(x, 0xFFFFF000) == x / 0x1000 * 0x1000
  {
    var a := x / 0x1000;
    ShlValues(a);
    ShlValues(0xF_FFFF);
    ShlValues(1);
    ShlValues(0);
    AndHighMask(a, x % 0x1000, 0xF_FFFF, 12);
    AndLowMask(0, a, 20);
  }

  lemma FlagMask(x: nat)
    ensures BitAnd(x, 0xFFF) == x % 0x1000
  {
    ShlValues(x / 0x1000);
    ShlValues(1);
    AndLowMask(x / 0x1000, x % 0x1000, 12);
  }

  lemma BitZero(x: nat)
    ensures BitAnd(x, 1) == x % 2
  {
    ShlValues(x / 2);
    ShlValues(1);
    AndLowMask(x / 2, x % 2, 1);
  }

  lemma IndexMask(x: nat)
    ensures BitAnd(x, 0x3FF) == x % 0x400
    ensures x < 0x400 ==> BitAnd(x, 0x3FF) == x
  {
    ShlValues(x / 0x400);
    ShlValues(1);
    AndLowMask(x / 0x400, x % 0x400, 10);
  }

  // A page-aligned address and a flag word below the page size combine by addition.
  lemma PageOr(frame: nat, flags: nat)
    requires flags < 0x1000
    ensures BitOr(frame * 0x1000, flags) == frame * 0x1000 + flags
  {
    ShlValues(frame);
    ShlValues(1);
    OrDisjoint(frame, flags, 12);
  }
}
