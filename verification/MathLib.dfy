/** The loops of src/libc/math.c that compute something worth stating: the table-driven CRC with
    its lazily built table, and Newton's integer square root. */
module MathLib {
  import opened Machine
  import opened Iteration
  import Crc

  /** The static table and its flag. */
  class CrcTable {
    const table: array<bv32>
    var inited: bool

    /** The table is right whenever the flag says it was built. */
    ghost predicate Valid()
      reads this, table
    {
      table.Length == 256 && (inited ==> forall i: nat :: i < 256 ==> IsEntry(table[i], i))
    }

    constructor ()
      ensures Valid() && !inited
    {
      table := new bv32[256](_ => 0);
      inited := false;
    }

    // crc32_init
    method Init()
      requires Valid()
      modifies this, table
      ensures Valid() && inited
    {
      for i := 0 to 256
        invariant forall j: nat :: j < i ==> IsEntry(table[j], j)
      {
        var c := EightTimes(i as bv32);
        EntryAt(c, i);
        table[i] := c;
      }
      inited := true;
    }

    // The inner loop of crc32_init.
    method EightTimes(i: bv32) returns (c: bv32)
      ensures c == Crc.Entry(i)
    {
      c := i;
      for j := 0 to 8
        invariant Iterate(Crc.Shift, c, 8 - j) == Crc.Entry(i)
      {
        c := ShiftOnce(c);
      }
    }

    // One round of the inner loop.
    method ShiftOnce(c: bv32) returns (r: bv32)
      ensures r == Crc.Shift(c)
    {
      r := if c & 1 != 0 then 0xEDB88320 ^ (c >> 1) else c >> 1;
    }

    /** crc32 is the CRC by definition, bit by bit, for every byte string. */
    method Checksum(data: seq<Crc.Octet>) returns (r: bv32)
      requires Valid()
      modifies this, table
      ensures Valid() && inited && r == Crc.Crc32(data)
    {
      if !inited {
        Init();
      }
      var crc: bv32 := 0xFFFFFFFF;
      for i := 0 to |data|
        invariant Valid() && inited
        invariant Crc.Register(0xFFFFFFFF, data) == Crc.Register(crc, data[i..])
      {
        assert data[i..][0] == data[i] && data[i..][1..] == data[i + 1..];
        crc := LookUp(crc, data[i]);
      }
      r := crc ^ 0xFFFFFFFF;
    }

    // crc = crc32_table[(crc ^ p[i]) & 0xFF] ^ (crc >> 8)
    method LookUp(crc: bv32, b: Crc.Octet) returns (r: bv32)
      requires Valid() && inited
      ensures r == Crc.FeedBits(crc, b, 8)
    {
      Crc.TableStep(crc, b);
      var low: bv32 := Crc.Low(Crc.Xor(crc, b));
      var index := low as nat;
      IndexBack(low);
      assert IsEntry(table[index], index);
      r := table[index] ^ (crc >> 8);
    }
  }

  /** What the table holds at i. */
  ghost predicate IsEntry(e: bv32, i: nat) {
    forall w: bv32 | w as nat == i :: e == Crc.Entry(w)
  }

  lemma EntryAt(e: bv32, i: nat)
    requires i < 256 && e == Crc.Entry(i as bv32)
    ensures IsEntry(e, i)
  {
    forall w: bv32 | w as nat == i
      ensures e == Crc.Entry(w)
    {
      IndexBack(w);
    }
  }

  lemma IndexBack(w: bv32)
    requires w <= 0xFF || w as nat < 256
    ensures w as nat < 256 && (w as nat) as bv32 == w
  {
  }

  // ---------------------------------------------------------------- square root

  /** x is the integer square root of n. */
  predicate IsRoot(n: nat, x: nat) {
    x * x <= n < (x + 1) * (x + 1)
  }

  lemma MulLess(a: int, b: int, c: int, d: int)
    requires 0 <= a <= c && 0 <= b <= d
    ensures a * b <= c * d
  {
  }

  lemma RootUnique(n: nat, x: nat, y: nat)
    requires IsRoot(n, x) && IsRoot(n, y)
    ensures x == y
  {
    if x < y {
      MulLess(x + 1, x + 1, y, y);
    } else if y < x {
      MulLess(y + 1, y + 1, x, x);
    }
  }

  // Newton's step never falls below the root: (x + n / x) / 2 >= r for every r with r * r <= n.
  lemma StepAbove(n: nat, x: nat, r: nat)
    requires 0 < x && r * r <= n
    ensures r <= (x + n / x) / 2
  {
    var q := n / x;
    assert n == q * x + n % x;
    assert (q + 1) * x == q * x + x;
    if x + q + 1 < 2 * r + 1 {
      Means(x, q + 1, r);
    }
  }

  // The product of two numbers is at most the square of half their sum.
  lemma Means(x: int, y: int, r: int)
    requires 0 < x && 0 < y && x + y <= 2 * r
    ensures x * y <= r * r
  {
    var d := x - r;
    assert y <= r - d;
    MulLess(x, y, x, 2 * r - x);
    assert x * (2 * r - x) == r * r - d * d;
    assert d * d >= 0;
  }

  // When Newton's step does not fall any more, x is not above the root either.
  lemma StepStops(n: nat, x: nat)
    requires 0 < x && (x + n / x) / 2 >= x
    ensures x * x <= n
  {
    var q := n / x;
    assert n == q * x + n % x;
    MulLess(x, x, q, x);
  }

  // (x + n / x) / 2
  method NewtonStep(n: int32, x: int32) returns (y: int32)
    requires 0 < n && (0 < x <= n < 0x7FFF_FFFF || (n == 0x7FFF_FFFF && x == -0x4000_0000))
    ensures 0 < x ==> y == (x + n / x) / 2
    ensures x < 0 ==> y == -0x2000_0000
  {
    if 0 < x {
      DivFits(n, x);
    }
    y := Quotient(Signed(x + Quotient(n, x)), 2);
  }

  /** The loop's state below INT_MAX: x and y are not below the root r, and when y is not below x
      the step has stopped. */
  predicate Closing(n: nat, r: nat, x: int, y: int) {
    0 < x <= n && 0 < y && r <= y && r <= x && (y < x || (x + n / x) / 2 >= x)
  }

  lemma ClosingStep(n: nat, r: nat, x: int, y: int)
    requires Closing(n, r, x, y) && y < x && IsRoot(n, r) && 0 < r
    ensures Closing(n, r, y, (y + n / y) / 2)
  {
    StepAbove(n, y, r);
  }

  lemma ClosingEnds(n: nat, r: nat, x: int, y: int)
    requires Closing(n, r, x, y) && y >= x && IsRoot(n, r)
    ensures IsRoot(n, x)
  {
    StepStops(n, x);
    if r < x {
      MulLess(r + 1, r + 1, x, x);
    }
  }

  /** isqrt: the floor of the square root, 0 for negative numbers, with no intermediate result leaving
      32 bits, but for one number. INT_MAX plus 1 wraps, and its root comes out as -2^30. */
  method Isqrt(n: int32) returns (x: int32)
    ensures n <= 0 ==> x == 0
    ensures 0 < n < 0x7FFF_FFFF ==> 0 < x && IsRoot(n, x)
    ensures n == 0x7FFF_FFFF ==> x == -0x4000_0000
  {
    if n <= 0 {
      return 0;
    }
    x := n;
    var y: int32 := Quotient(Signed(x + 1), 2);
    ghost var r := Root(n);
    RootBelow(n, r);
    while y < x
      invariant n < 0x7FFF_FFFF ==> Closing(n, r, x, y)
      invariant n == 0x7FFF_FFFF ==> (x == n && y == -0x4000_0000) || (x == -0x4000_0000 && y == -0x2000_0000)
      decreases x + 0x8000_0000
    {
      if n < 0x7FFF_FFFF {
        ClosingStep(n, r, x, y);
      }
      x := y;
      y := NewtonStep(n, x);
    }
    if n < 0x7FFF_FFFF {
      ClosingEnds(n, r, x, y);
    }
  }

  /** The root exists, by counting up to it. */
  function Root(n: nat): (r: nat)
    ensures IsRoot(n, r)
  {
    RootFrom(n, 0)
  }

  function RootFrom(n: nat, r: nat): (s: nat)
    requires r * r <= n
    ensures IsRoot(n, s)
    decreases n - r
  {
    if n < (r + 1) * (r + 1) then r else RootFrom(n, r + 1)
  }

  lemma RootBelow(n: nat, r: nat)
    requires 0 < n && IsRoot(n, r)
    ensures 0 < r <= (n + 1) / 2
    ensures n == 1 ==> (1 + n / 1) / 2 >= 1
  {
    if r >= 2 {
      MulLess(2, r, r, r);
    }
  }

  lemma DivFits(n: nat, x: nat)
    requires 0 < x <= n
    ensures 1 <= n / x && x + n / x <= n + 1
  {
    var q := n / x;
    assert n == q * x + n % x;
    assert (x - 1) * (q - 1) == q * x - x - q + 1;
    MulLess(0, 0, x - 1, q - 1);
  }
}
