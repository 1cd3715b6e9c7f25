/** CRC-32 as src/libc/math.c computes it, against the definition bit by bit: the CRC of section 8
    of RFC 1952, with the reflected polynomial 0xEDB88320. */
module Crc {
  import opened Iteration

  // ---------------------------------------------------------------- definition

  type Octet = b: bv32 | b <= 0xFF

  /** The register shifted by one bit, the polynomial folded in when a 1 falls out. */
  function Shift(c: bv32): bv32 {
    if c & 1 == 1 then 0xEDB88320 ^ (c >> 1) else c >> 1
  }

  /** The register after one more message bit, the low bit of w. */
  function FeedBit(c: bv32, w: bv32): bv32 {
    if (c & 1 == 1) != (w & 1 == 1) then 0xEDB88320 ^ (c >> 1) else c >> 1
  }

  function Half(w: bv32): bv32 {
    w >> 1
  }

  function Xor(a: bv32, b: bv32): bv32 {
    a ^ b
  }

  /** The register after n message bits, the low ones of w, least significant first. */
  function FeedBits(c: bv32, w: bv32, n: nat): bv32 {
    Feed(FeedBit, Half, c, w, n)
  }

  /** The register after a message, by definition. */
  function Register(c: bv32, message: seq<Octet>): bv32
    decreases |message|
  {
    if message == [] then c else Register(FeedBits(c, message[0], 8), message[1..])
  }

  /** CRC-32: start from all ones, complement at the end. */
  function Crc32(message: seq<Octet>): bv32 {
    Xor(Register(0xFFFFFFFF, message), 0xFFFFFFFF)
  }

  // ---------------------------------------------------------------- linearity

  lemma XorParts(a: bv32, b: bv32)
    ensures (a ^ b) >> 1 == (a >> 1) ^ (b >> 1)
    ensures ((a ^ b) & 1 == 1) <==> (a & 1 == 1) != (b & 1 == 1)
  {
  }

  lemma XorCancel(p: bv32, x: bv32, y: bv32)
    ensures (p ^ x) ^ (p ^ y) == x ^ y
    ensures (p ^ x) ^ y == p ^ (x ^ y) == x ^ (p ^ y)
  {
  }

  /** One shift is linear over exclusive or. */
  lemma ShiftLinear(a: bv32, b: bv32)
    ensures Shift(Xor(a, b)) == Xor(Shift(a), Shift(b))
  {
    XorParts(a, b);
    XorCancel(0xEDB88320, a >> 1, b >> 1);
  }

  // Feeding a bit is mixing the word in at the bottom and shifting.
  lemma FeedMixed(c: bv32, w: bv32)
    ensures Xor(FeedBit(c, w), Half(w)) == Shift(Xor(c, w))
  {
    XorParts(c, w);
    XorCancel(0xEDB88320, c >> 1, w >> 1);
  }

  // Shifting loses nothing: the top bit of the polynomial tells which way it went.
  lemma ShiftInjective(a: bv32, b: bv32)
    requires Shift(a) == Shift(b)
    ensures a == b
  {
  }

  lemma {:induction false} ShiftsLinear(a: bv32, b: bv32, n: nat)
    ensures Iterate(Shift, Xor(a, b), n) == Xor(Iterate(Shift, a, n), Iterate(Shift, b, n))
  {
    forall x, y
      ensures Shift(Xor(x, y)) == Xor(Shift(x), Shift(y))
    {
      ShiftLinear(x, y);
    }
    Homomorphic(Shift, Xor, a, b, n);
  }

  lemma {:induction false} ShiftsInjective(a: bv32, b: bv32, n: nat)
    requires Iterate(Shift, a, n) == Iterate(Shift, b, n)
    ensures a == b
  {
    forall x, y | Shift(x) == Shift(y)
      ensures x == y
    {
      ShiftInjective(x, y);
    }
    Injective(Shift, a, b, n);
  }

  lemma {:induction false} FeedBitsMixed(c: bv32, w: bv32, n: nat)
    ensures Xor(FeedBits(c, w, n), Iterate(Half, w, n)) == Iterate(Shift, Xor(c, w), n)
  {
    forall x, y
      ensures Xor(FeedBit(x, y), Half(y)) == Shift(Xor(x, y))
    {
      FeedMixed(x, y);
    }
    FeedIsIterate(FeedBit, Half, Shift, Xor, c, w, n);
  }

  // ---------------------------------------------------------------- a byte at a time

  lemma HalfSteps(w: bv32)
    ensures Half(Half(w)) == w >> 2 && Half(w >> 2) == w >> 3 && Half(w >> 3) == w >> 4 && Half(w >> 4) == w >> 5
    ensures Half(w >> 5) == w >> 6 && Half(w >> 6) == w >> 7 && Half(w >> 7) == w >> 8
  {
  }

  lemma {:induction false} EightHalves(w: bv32)
    ensures Iterate(Half, w, 8) == w >> 8
  {
    HalfSteps(w);
    Eight(Half, w);
  }

  // With no bit falling out a shift only moves bits.
  lemma ShiftsPlain(c: bv32)
    requires c & 0xFF == 0
    ensures Shift(c) == c >> 1 && Shift(c >> 1) == c >> 2 && Shift(c >> 2) == c >> 3 && Shift(c >> 3) == c >> 4
    ensures Shift(c >> 4) == c >> 5 && Shift(c >> 5) == c >> 6 && Shift(c >> 6) == c >> 7 && Shift(c >> 7) == c >> 8
  {
  }

  lemma {:induction false} EightPlain(c: bv32)
    requires c & 0xFF == 0
    ensures Iterate(Shift, c, 8) == c >> 8
  {
    ShiftsPlain(c);
    Eight(Shift, c);
  }

  function Low(c: bv32): Octet {
    c & 0xFF
  }

  function High(c: bv32): bv32 {
    c & 0xFFFFFF00
  }

  lemma LowHigh(c: bv32)
    ensures c == Xor(Low(c), High(c)) && High(c) & 0xFF == 0 && High(c) >> 8 == c >> 8
  {
  }

  /** Entry i of the table. */
  function Entry(i: bv32): bv32 {
    Iterate(Shift, i, 8)
  }

  /** Eight shifts are one look-up and a move by a byte. */
  lemma {:induction false} EightShifts(c: bv32)
    ensures Iterate(Shift, c, 8) == Xor(Entry(Low(c)), c >> 8)
  {
    LowHigh(c);
    ShiftsParts(c, Low(c), High(c), c >> 8);
  }

  lemma {:induction false} ShiftsParts(c: bv32, low: bv32, high: bv32, moved: bv32)
    requires c == Xor(low, high) && high & 0xFF == 0 && high >> 8 == moved
    ensures Iterate(Shift, c, 8) == Xor(Iterate(Shift, low, 8), moved)
  {
    ShiftsLinear(low, high, 8);
    EightPlain(high);
  }

  lemma XorBack(x: bv32, y: bv32, z: bv32)
    requires Xor(x, y) == z
    ensures x == Xor(z, y)
  {
  }

  // Eight bits fed, in closed form.
  lemma {:induction false} EightFed(c: bv32, w: bv32)
    ensures FeedBits(c, w, 8) == Xor(Xor(Entry(Low(Xor(c, w))), Xor(c, w) >> 8), w >> 8)
  {
    FeedBitsMixed(c, w, 8);
    EightHalves(w);
    EightShifts(Xor(c, w));
    XorBack(FeedBits(c, w, 8), w >> 8, Iterate(Shift, Xor(c, w), 8));
  }

  lemma ShiftedXor(c: bv32, w: bv32)
    ensures Xor(c, w) >> 8 == Xor(c >> 8, w >> 8)
    ensures Low(Xor(c, w)) == Low(Xor(c, Low(w)))
  {
  }

  lemma XorAssoc(a: bv32, b: bv32, c: bv32)
    ensures Xor(Xor(a, b), c) == Xor(a, Xor(b, c))
  {
  }

  lemma XorSelf(x: bv32, y: bv32)
    ensures Xor(Xor(x, y), y) == x
  {
  }

  lemma XorTwice(e: bv32, x: bv32, y: bv32)
    ensures Xor(Xor(e, Xor(x, y)), y) == Xor(e, x)
  {
    XorAssoc(e, Xor(x, y), y);
    XorSelf(x, y);
  }

  /** One table look-up does the work of eight message bits. */
  lemma {:induction false} TableStep(c: bv32, w: bv32)
    ensures FeedBits(c, w, 8) == Xor(Entry(Low(Xor(c, w))), c >> 8)
  {
    EightFed(c, w);
    ShiftedXor(c, w);
    XorTwice(Entry(Low(Xor(c, w))), c >> 8, w >> 8);
  }

  // Only the low eight bits of a word matter to its first byte.
  lemma {:induction false} FeedsLow(c: bv32, w: bv32)
    ensures FeedBits(c, w, 8) == FeedBits(c, Low(w), 8)
  {
    TableStep(c, w);
    TableStep(c, Low(w));
    ShiftedXor(c, w);
  }

  // ---------------------------------------------------------------- messages

  lemma {:induction false} RegisterConcat(c: bv32, a: seq<Octet>, b: seq<Octet>)
    ensures Register(c, a + b) == Register(Register(c, a), b)
    decreases |a|
  {
    if a == [] {
      assert a + b == b;
    } else {
      assert (a + b)[1..] == a[1..] + b;
      RegisterConcat(FeedBits(c, a[0], 8), a[1..], b);
    }
  }

  lemma XorInjective(c: bv32, a: bv32, b: bv32)
    requires Xor(c, a) == Xor(c, b) || Xor(a, c) == Xor(b, c)
    ensures a == b
  {
  }

  lemma {:induction false} FeedInjective(c: bv32, c': bv32, w: bv32, n: nat)
    requires FeedBits(c, w, n) == FeedBits(c', w, n)
    ensures c == c'
  {
    FeedBitsMixed(c, w, n);
    FeedBitsMixed(c', w, n);
    ShiftsInjective(Xor(c, w), Xor(c', w), n);
    XorInjective(w, c, c');
  }

  /** Different registers stay different whatever message follows. */
  lemma {:induction false} RegisterInjective(c: bv32, c': bv32, message: seq<Octet>)
    requires Register(c, message) == Register(c', message)
    ensures c == c'
    decreases |message|
  {
    if message != [] {
      RegisterInjective(FeedBits(c, message[0], 8), FeedBits(c', message[0], 8), message[1..]);
      FeedInjective(c, c', message[0], 8);
    }
  }

  /** The four bytes of a word, least significant first. */
  function Bytes(w: bv32): seq<Octet> {
    [Low(w), Low(w >> 8), Low((w >> 8) >> 8), Low(((w >> 8) >> 8) >> 8)]
  }

  lemma {:induction false} RegisterFirst(c: bv32, a: Octet, rest: seq<Octet>)
    ensures Register(c, [a] + rest) == Register(FeedBits(c, a, 8), rest)
  {
    assert ([a] + rest)[1..] == rest;
  }

  lemma {:induction false} RegisterFour(c: bv32, a: Octet, b: Octet, d: Octet, e: Octet)
    ensures Register(c, [a, b, d, e]) == FeedBits(FeedBits(FeedBits(FeedBits(c, a, 8), b, 8), d, 8), e, 8)
  {
    var c1 := FeedBits(c, a, 8);
    var c2 := FeedBits(c1, b, 8);
    var c3 := FeedBits(c2, d, 8);
    assert [a, b, d, e] == [a] + ([b] + ([d] + ([e] + [])));
    RegisterFirst(c, a, [b] + ([d] + ([e] + [])));
    RegisterFirst(c1, b, [d] + ([e] + []));
    RegisterFirst(c2, d, [e] + []);
    RegisterFirst(c3, e, []);
  }

  function FeedWordByte(c: bv32, w: bv32): bv32 {
    FeedBits(c, Low(w), 8)
  }

  // A word fed in four bytes is fed in 32 bits.
  lemma {:induction false} WordFed(c: bv32, w: bv32)
    ensures Register(c, Bytes(w)) == FeedBits(c, w, 32)
  {
    forall x, y
      ensures Feed(FeedBit, Half, x, y, 8) == FeedWordByte(x, y)
    {
      FeedsLow(x, y);
    }
    forall y
      ensures Iterate(Half, y, 8) == ByteOff(y)
    {
      EightHalves(y);
    }
    ThirtyTwoFed(FeedBit, Half, FeedWordByte, ByteOff, c, w);
    BytesOf(w);
    RegisterFour(c, Low(w), Low(ByteOff(w)), Low(ByteOff(ByteOff(w))), Low(ByteOff(ByteOff(ByteOff(w)))));
  }

  lemma BytesOf(w: bv32)
    ensures Bytes(w) == [Low(w), Low(ByteOff(w)), Low(ByteOff(ByteOff(w))), Low(ByteOff(ByteOff(ByteOff(w))))]
  {
  }

  /** Bursts up to 32 bits are caught: messages that differ only inside one run of four bytes have
      different CRCs. */
  lemma {:induction false} BurstDetected(before: seq<Octet>, w: bv32, w': bv32, after: seq<Octet>)
    requires Crc32(before + Bytes(w) + after) == Crc32(before + Bytes(w') + after)
    ensures w == w'
  {
    var c := Register(0xFFFFFFFF, before);
    Split(before, w, after);
    Split(before, w', after);
    XorInjective(0xFFFFFFFF, Register(Register(c, Bytes(w)), after), Register(Register(c, Bytes(w')), after));
    RegisterInjective(Register(c, Bytes(w)), Register(c, Bytes(w')), after);
    WordFed(c, w);
    WordFed(c, w');
    WordInjective(c, w, w');
  }

  lemma {:induction false} Split(before: seq<Octet>, w: bv32, after: seq<Octet>)
    ensures Register(0xFFFFFFFF, before + Bytes(w) + after)
      == Register(Register(Register(0xFFFFFFFF, before), Bytes(w)), after)
  {
    RegisterConcat(0xFFFFFFFF, before + Bytes(w), after);
    RegisterConcat(0xFFFFFFFF, before, Bytes(w));
  }

  function ByteOff(w: bv32): bv32 {
    w >> 8
  }

  lemma {:induction false} AllHalves(w: bv32)
    ensures Iterate(Half, w, 32) == 0
  {
    forall y
      ensures Iterate(Half, y, 8) == ByteOff(y)
    {
      EightHalves(y);
    }
    ThirtyTwo(Half, ByteOff, w);
    NothingLeft(w);
  }

  lemma NothingLeft(w: bv32)
    ensures ByteOff(ByteOff(ByteOff(ByteOff(w)))) == 0
  {
  }

  lemma XorZero(x: bv32, y: bv32)
    requires Xor(x, 0) == y
    ensures x == y
  {
  }

  lemma {:induction false} WordMixed(c: bv32, w: bv32)
    ensures FeedBits(c, w, 32) == Iterate(Shift, Xor(c, w), 32)
  {
    FeedBitsMixed(c, w, 32);
    AllHalves(w);
    XorZero(FeedBits(c, w, 32), Iterate(Shift, Xor(c, w), 32));
  }

  lemma {:induction false} WordInjective(c: bv32, w: bv32, w': bv32)
    requires FeedBits(c, w, 32) == FeedBits(c, w', 32)
    ensures w == w'
  {
    WordMixed(c, w);
    WordMixed(c, w');
    ShiftsInjective(Xor(c, w), Xor(c, w'), 32);
    XorInjective(c, w, w');
  }

  /** The receiver's check: a message followed by its own CRC, least significant byte first, always
      has the same CRC. */
  lemma {:induction false} Residue(message: seq<Octet>)
    ensures Crc32(message + Bytes(Crc32(message))) == 0x2144DF1C
  {
    var r := Register(0xFFFFFFFF, message);
    var w := Crc32(message);
    RegisterConcat(0xFFFFFFFF, message, Bytes(w));
    WordFed(r, w);
    WordMixed(r, w);
    XorOnes(r);
    OnesShifted();
  }

  lemma XorOnes(r: bv32)
    ensures Xor(r, Xor(r, 0xFFFFFFFF)) == 0xFFFFFFFF
    ensures Xor(0xDEBB20E3, 0xFFFFFFFF) == 0x2144DF1C
  {
  }

  lemma {:induction false} OnesShifted()
    ensures Iterate(Shift, 0xFFFFFFFF, 32) == 0xDEBB20E3
  {
    EightOf(0xFFFFFFFF, 0x2DFD1072);
    EightOf(0x2DFD1072, 0xBE26ED00);
    EightOf(0xBE26ED00, 0x00BE26ED);
    EightOf(0x00BE26ED, 0xDEBB20E3);
    Adds(Shift, 0xFFFFFFFF, 8, 24);
    Adds(Shift, 0x2DFD1072, 8, 16);
    Adds(Shift, 0xBE26ED00, 8, 8);
  }

  lemma {:induction false} EightOf(c: bv32, d: bv32)
    requires Shift(Shift(Shift(Shift(Shift(Shift(Shift(Shift(c)))))))) == d
    ensures Iterate(Shift, c, 8) == d
  {
    Eight(Shift, c);
  }
}
