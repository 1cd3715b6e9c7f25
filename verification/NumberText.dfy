/** Numbers as text: what itoa prints, what strtol and atoi read, and dotted addresses, in the
    32-bit two's complement arithmetic of the machine. Strings are C strings without their NUL. */
module NumberText {
  import opened Machine

  lemma {:induction false} SignedPeriod(x: int, k: int)
    ensures Signed(x + 0x1_0000_0000 * k) == Signed(x)
    decreases if k < 0 then 0 - k else k
  {
    if k < 0 {
      SignedPeriod(x, k + 1);
      OnePeriod(x + 0x1_0000_0000 * k);
    } else if k > 0 {
      SignedPeriod(x, k - 1);
      OnePeriod(x + 0x1_0000_0000 * (k - 1));
    }
  }

  lemma OnePeriod(x: int)
    ensures Signed(x + 0x1_0000_0000) == Signed(x)
  {
  }

  // Cutting a digit accumulator to 32 bits on the way does not change the 32 bits of the result.
  lemma {:induction false} SignedStep(q: int, base: int, d: int)
    ensures Signed(Signed(q) * base + d) == Signed(q * base + d)
  {
    var k := (q - Signed(q)) / 0x1_0000_0000;
    assert q == Signed(q) + 0x1_0000_0000 * k;
    Distribute(Signed(q), k, base);
    SignedPeriod(Signed(q) * base + d, k * base);
  }

  lemma Distribute(a: int, k: int, base: int)
    ensures (a + 0x1_0000_0000 * k) * base == a * base + 0x1_0000_0000 * (k * base)
  {
  }

  // ---------------------------------------------------------------- printing

  /** A digit from 36 on has no character of its own: the sum is cut to a byte. */
  function DigitChar(d: nat): char {
    if d < 10 then '0' + d as char
    else if d < 36 then 'A' + (d - 10) as char
    else ((d + 55) % 0x100) as char
  }

  /** The digits of u, most significant first. */
  function Digits(u: nat, base: nat): (s: string)
    requires 2 <= base
    ensures s != []
    decreases u
  {
    if u < base then [DigitChar(u)] else DivParts(u, base); Digits(u / base, base) + [DigitChar(u % base)]
  }

  predicate PrintsSign(v: int32, base: nat) {
    v < 0 && base == 10
  }

  /** What itoa prints: a minus sign in base ten alone, otherwise the bits as an unsigned number. */
  function Text(v: int32, base: nat): (s: string)
    requires 2 <= base
    ensures s != []
  {
    if PrintsSign(v, base) then "-" + Digits(0 - v, base) else Digits(Wrap(v), base)
  }

  // ---------------------------------------------------------------- reading

  function DigitValue(c: char): int {
    if '0' <= c <= '9' then c as int - '0' as int
    else if 'a' <= c <= 'f' then 10 + (c as int - 'a' as int)
    else if 'A' <= c <= 'F' then 10 + (c as int - 'A' as int)
    else -1
  }

  predicate IsDigit(c: char, base: int) {
    0 <= DigitValue(c) < base
  }

  predicate StartsWithDigit(s: string, base: int) {
    s != [] && IsDigit(s[0], base)
  }

  datatype Parsed = Parsed(value: int32, rest: string)

  /** The exact value with one digit more. */
  function WithDigit(acc: int, c: char, base: int): int {
    acc * base + DigitValue(c)
  }

  /** Digits are taken while they are digits of the base. */
  function Accumulate(acc: int32, s: string, base: int): Parsed
    decreases |s|
  {
    if StartsWithDigit(s, base) then Accumulate(Signed(WithDigit(acc, s[0], base)), s[1..], base) else Parsed(acc, s)
  }

  /** No step of Accumulate leaves the signed 32-bit range. */
  predicate NeverWraps(acc: int, s: string, base: int)
    decreases |s|
  {
    StartsWithDigit(s, base) ==>
      WithDigit(acc, s[0], base) < 0x8000_0000 && NeverWraps(WithDigit(acc, s[0], base), s[1..], base)
  }

  function SkipBlanks(s: string, tabs: bool): string {
    if s != [] && (s[0] == ' ' || (tabs && s[0] == '\t')) then SkipBlanks(s[1..], tabs) else s
  }

  predicate IsNegative(s: string) {
    s != [] && s[0] == '-'
  }

  function SkipSign(s: string): string {
    if s != [] && (s[0] == '-' || s[0] == '+') then s[1..] else s
  }

  predicate StartsWithX(s: string) {
    s != [] && (s[0] == 'x' || s[0] == 'X')
  }

  predicate HexPrefix(s: string) {
    |s| >= 2 && s[0] == '0' && (s[1] == 'x' || s[1] == 'X')
  }

  function Number(neg: bool, s: string, base: int): Parsed {
    var p := Accumulate(0, s, base);
    Parsed(if neg then Signed(0 - p.value) else p.value, p.rest)
  }

  /** The base strtol settles on when it is not told one. */
  function GuessBase(s: string): int {
    if s != [] && s[0] == '0' then 8 else 10
  }

  function PrefixedNumber(neg: bool, s: string, base: int): Parsed {
    if (base == 0 || base == 16) && HexPrefix(s) then Number(neg, s[2..], 16)
    else Number(neg, s, if base == 0 then GuessBase(s) else base)
  }

  function Strtol(s: string, base: int): Parsed {
    var t := SkipBlanks(s, true);
    PrefixedNumber(IsNegative(t), SkipSign(t), base)
  }

  function Atoi(s: string): int32 {
    var t := SkipBlanks(s, false);
    Number(IsNegative(t), SkipSign(t), 10).value
  }

  // ---------------------------------------------------------------- digits read back

  lemma DigitRead(d: nat, base: nat)
    requires d < base <= 16
    ensures DigitValue(DigitChar(d)) == d && IsDigit(DigitChar(d), base)
  {
  }

  // The last digit d of a number and the number q in front of it.
  lemma {:induction false} LastDigit(u: nat, base: nat) returns (q: nat, d: nat)
    requires 2 <= base
    ensures u == q * base + d && d < base && q <= u / 2 && d <= u
    ensures u < base ==> d == u && q == 0 && Digits(u, base) == [DigitChar(d)]
    ensures u >= base ==> 0 < q < u && Digits(u, base) == Digits(q, base) + [DigitChar(d)]
  {
    q, d := u / base, u % base;
    DivParts(u, base);
  }

  lemma DivParts(u: nat, base: nat)
    requires 2 <= base
    ensures u == u / base * base + u % base && u % base < base && u / base <= u / 2 && u % base <= u
    ensures u < base ==> u / base == 0
    ensures u >= base ==> 0 < u / base < u
  {
    var q, d := u / base, u % base;
    assert u == base * q + d;
    TimesAtLeast(q, base);
  }

  lemma TimesAtLeast(q: nat, base: nat)
    requires 2 <= base
    ensures q * base >= q * 2
  {
  }

  lemma {:induction false} TakeDigit(acc: int32, d: nat, base: nat, rest: string)
    requires d < base <= 16
    ensures Accumulate(acc, [DigitChar(d)] + rest, base) == Accumulate(Signed(acc * base + d), rest, base)
    ensures forall a: int :: NeverWraps(a, [DigitChar(d)] + rest, base) <==>
                             a * base + d < 0x8000_0000 && NeverWraps(a * base + d, rest, base)
  {
    var s := [DigitChar(d)] + rest;
    DigitRead(d, base);
    assert s[0] == DigitChar(d) && s[1..] == rest;
    assert forall a: int :: WithDigit(a, s[0], base) == a * base + d;
  }

  lemma {:induction false} AccumulateDigits(u: nat, base: nat, rest: string)
    requires 2 <= base <= 16
    ensures Accumulate(0, Digits(u, base) + rest, base) == Accumulate(Signed(u), rest, base)
    decreases u
  {
    var q, d := LastDigit(u, base);
    var last := [DigitChar(d)] + rest;
    if u < base {
      assert Digits(u, base) + rest == last;
      TakeDigit(0, d, base, rest);
    } else {
      assert Digits(u, base) + rest == Digits(q, base) + last;
      AccumulateDigits(q, base, last);
      LastTaken(q, d, base, rest, u);
    }
  }

  lemma {:induction false} LastTaken(q: nat, d: nat, base: nat, rest: string, u: nat)
    requires d < base <= 16 && u == q * base + d
    ensures Accumulate(Signed(q), [DigitChar(d)] + rest, base) == Accumulate(Signed(u), rest, base)
  {
    TakeDigit(Signed(q), d, base, rest);
    SignedStep(q, base, d);
  }

  lemma {:induction false} DigitsWrap(u: nat, base: nat, rest: string)
    requires 2 <= base <= 16 && u < 0x1_0000_0000
    ensures NeverWraps(0, Digits(u, base) + rest, base) <==> u < 0x8000_0000 && NeverWraps(u, rest, base)
    decreases u
  {
    var q, d := LastDigit(u, base);
    var last := [DigitChar(d)] + rest;
    TakeDigit(0, d, base, rest);
    if u < base {
      assert Digits(u, base) + rest == last;
    } else {
      assert Digits(u, base) + rest == Digits(q, base) + last;
      DigitsWrap(q, base, last);
    }
  }

  lemma {:induction false} FirstDigit(u: nat, base: nat)
    requires 2 <= base <= 16
    ensures IsDigit(Digits(u, base)[0], base)
    ensures Digits(u, base)[0] == '0' <==> u == 0
    decreases u
  {
    var q, d := LastDigit(u, base);
    if u >= base {
      FirstDigit(q, base);
    }
  }

  lemma {:induction false} SecondDigit(u: nat, base: nat)
    requires 2 <= base <= 16 && |Digits(u, base)| >= 2
    ensures IsDigit(Digits(u, base)[1], base)
    decreases u
  {
    var q, d := LastDigit(u, base);
    if |Digits(q, base)| >= 2 {
      SecondDigit(q, base);
    } else {
      DigitRead(d, base);
    }
  }

  // A number that is not 0, or is not followed by an x, does not look like a hexadecimal prefix.
  lemma {:induction false} NoPrefix(u: nat, base: nat, rest: string)
    requires 2 <= base <= 16
    ensures HexPrefix(Digits(u, base) + rest) <==> u == 0 && StartsWithX(rest)
    ensures u == 0 ==> |Digits(u, base)| == 1
  {
    FirstDigit(u, base);
    if |Digits(u, base)| >= 2 {
      SecondDigit(u, base);
      assert !IsDigit('x', base) && !IsDigit('X', base);
      assert u != 0;
    } else {
      assert rest != [] ==> (Digits(u, base) + rest)[1] == rest[0];
    }
  }

  /** What is left of a text after its blanks and sign: the digits and everything behind them. */
  lemma {:induction false} SignRead(v: int32, base: nat, rest: string, tabs: bool)
    requires 2 <= base <= 16
    ensures SkipBlanks(Text(v, base) + rest, tabs) == Text(v, base) + rest
    ensures IsNegative(Text(v, base) + rest) == PrintsSign(v, base)
    ensures SkipSign(Text(v, base) + rest) == Digits(Magnitude(v, base), base) + rest
    ensures Magnitude(v, base) == 0 <==> v == 0
  {
    var digits := Digits(Magnitude(v, base), base);
    FirstDigit(Magnitude(v, base), base);
    MagnitudeZero(v, base);
    if PrintsSign(v, base) {
      MinusRead(Text(v, base) + rest, digits + rest, tabs);
    } else {
      PlainRead(Text(v, base) + rest, base, tabs);
    }
  }

  lemma MagnitudeZero(v: int32, base: nat)
    ensures Magnitude(v, base) == 0 <==> v == 0
  {
  }

  lemma {:induction false} MinusRead(t: string, behind: string, tabs: bool)
    requires t == "-" + behind
    ensures SkipBlanks(t, tabs) == t && IsNegative(t) && SkipSign(t) == behind
  {
  }

  lemma {:induction false} PlainRead(t: string, base: nat, tabs: bool)
    requires base <= 16 && t != [] && IsDigit(t[0], base)
    ensures SkipBlanks(t, tabs) == t && !IsNegative(t) && SkipSign(t) == t
  {
  }

  /** The unsigned number whose digits itoa prints. */
  function Magnitude(v: int32, base: nat): nat {
    if v < 0 && base == 10 then 0 - v else Wrap(v)
  }

  lemma SignedMagnitude(v: int32, base: nat)
    ensures (if PrintsSign(v, base) then Signed(0 - Signed(Magnitude(v, base))) else Signed(Magnitude(v, base))) == v
  {
  }

  lemma {:induction false} NumberIs(neg: bool, s: string, base: int, a: int32, rest: string, v: int32)
    requires Accumulate(0, s, base) == Parsed(a, rest) && v == if neg then Signed(0 - a) else a
    ensures Number(neg, s, base) == Parsed(v, rest)
  {
  }

  lemma {:induction false} NumberRead(v: int32, base: nat, rest: string)
    requires 2 <= base <= 16 && !StartsWithDigit(rest, base)
    ensures Number(PrintsSign(v, base), Digits(Magnitude(v, base), base) + rest, base) == Parsed(v, rest)
  {
    var m := Magnitude(v, base);
    AccumulateDigits(m, base, rest);
    SignedMagnitude(v, base);
    NumberIs(PrintsSign(v, base), Digits(m, base) + rest, base, Signed(m), rest, v);
  }

  lemma {:induction false} RestShrinks(acc: int32, s: string, base: int)
    ensures |Accumulate(acc, s, base).rest| <= |s|
    decreases |s|
  {
    if StartsWithDigit(s, base) {
      RestShrinks(Signed(WithDigit(acc, s[0], base)), s[1..], base);
    }
  }

  // Strtol of a text s with sign neg and digits u, without and with a prefix in front of them.
  lemma {:induction false} StrtolIs(s: string, base: int, neg: bool, u: string, p: Parsed)
    requires SkipBlanks(s, true) == s && IsNegative(s) == neg && SkipSign(s) == u
    requires !(base == 16 && HexPrefix(u)) && !(base == 0 && HexPrefix(u))
    requires Number(neg, u, if base == 0 then GuessBase(u) else base) == p
    ensures Strtol(s, base) == p
  {
  }

  lemma {:induction false} StrtolSkips(s: string, base: int, neg: bool, u: string)
    requires SkipBlanks(s, true) == s && IsNegative(s) == neg && SkipSign(s) == u
    requires (base == 16 || base == 0) && HexPrefix(u)
    ensures Strtol(s, base) == Number(neg, u[2..], 16) && |Strtol(s, base).rest| <= |u| - 2
  {
    RestShrinks(0, u[2..], 16);
  }

  // ---------------------------------------------------------------- round trips

  /** strtol reads back every 32-bit number itoa printed in a base from 2 to 16, whatever follows it,
      with one exception: a hexadecimal 0 followed by an x. */
  lemma {:induction false} StrtolReadsItoa(v: int32, base: nat, rest: string)
    requires 2 <= base <= 16 && !StartsWithDigit(rest, base)
    ensures Strtol(Text(v, base) + rest, base) == Parsed(v, rest) <==> !(base == 16 && v == 0 && StartsWithX(rest))
  {
    SignRead(v, base, rest, true);
    NoPrefix(Magnitude(v, base), base, rest);
    NumberRead(v, base, rest);
    StrtolEither(Text(v, base) + rest, base, PrintsSign(v, base), Digits(Magnitude(v, base), base), rest, v);
  }

  lemma {:induction false} StrtolEither(s: string, base: int, neg: bool, digits: string, rest: string, v: int32)
    requires SkipBlanks(s, true) == s && IsNegative(s) == neg && SkipSign(s) == digits + rest && base != 0
    requires Number(neg, digits + rest, base) == Parsed(v, rest) && (HexPrefix(digits + rest) ==> |digits| == 1)
    ensures Strtol(s, base) == Parsed(v, rest) <==> !(base == 16 && HexPrefix(digits + rest))
  {
    if base == 16 && HexPrefix(digits + rest) {
      StrtolSkips(s, base, neg, digits + rest);
    } else {
      StrtolIs(s, base, neg, digits + rest, Parsed(v, rest));
    }
  }

  lemma {:induction false} ZeroRead(neg: bool, s: string, base: int)
    requires s == "0" && 0 < base
    ensures Number(neg, s, base) == Parsed(0, "")
  {
    assert StartsWithDigit(s, base) && s[1..] == "" && WithDigit(0, s[0], base) == 0;
    assert Accumulate(0, s, base) == Accumulate(0, s[1..], base);
  }

  /** Left to find the base itself, strtol still reads every decimal text. */
  lemma {:induction false} StrtolFindsBase(v: int32)
    ensures Strtol(Text(v, 10), 0) == Parsed(v, "")
  {
    var t, m := Text(v, 10) + "", Magnitude(v, 10);
    assert t == Text(v, 10);
    SignRead(v, 10, "", true);
    NoPrefix(m, 10, "");
    FirstDigit(m, 10);
    NumberRead(v, 10, "");
    StrtolGuesses(t, PrintsSign(v, 10), Digits(m, 10) + "", v);
  }

  lemma {:induction false} StrtolGuesses(s: string, neg: bool, u: string, v: int32)
    requires SkipBlanks(s, true) == s && IsNegative(s) == neg && SkipSign(s) == u && !HexPrefix(u)
    requires Number(neg, u, 10) == Parsed(v, "") && u != [] && (u[0] == '0' ==> |u| == 1)
    ensures Strtol(s, 0) == Parsed(v, "")
  {
    if u[0] == '0' {
      ZeroRead(neg, u, 8);
      ZeroRead(neg, u, 10);
    }
    StrtolIs(s, 0, neg, u, Parsed(v, ""));
  }

  /** Hexadecimal digits behind 0x are read with the base given or not. */
  lemma {:induction false} HexRead(u: u32)
    ensures Strtol("0x" + Digits(u, 16), 0) == Strtol("0x" + Digits(u, 16), 16) == Parsed(Signed(u), "")
  {
    var s := "0x" + Digits(u, 16);
    assert s[0] == '0' && s[1] == 'x' && s[2..] == Digits(u, 16) == Digits(u, 16) + "";
    AccumulateDigits(u, 16, "");
  }

  /** atoi inverts itoa in base ten for every 32-bit number. */
  lemma {:induction false} AtoiReadsItoa(v: int32, rest: string)
    requires !StartsWithDigit(rest, 10)
    ensures Atoi(Text(v, 10) + rest) == v
  {
    SignRead(v, 10, rest, false);
    NumberRead(v, 10, rest);
  }

  /** Reading the text back stays inside the signed range, as the C standard asks, exactly for
      numbers that are not negative and, in base ten, those above the least. */
  lemma {:induction false} ReadingInRange(v: int32, base: nat)
    requires 2 <= base <= 16
    ensures NeverWraps(0, Digits(Magnitude(v, base), base), base) <==> 0 <= v || (base == 10 && -0x8000_0000 < v)
  {
    var u := Magnitude(v, base);
    assert Digits(u, base) + "" == Digits(u, base);
    DigitsWrap(u, base, "");
  }

  // ---------------------------------------------------------------- lengths

  function Pow2(n: nat): nat {
    if n == 0 then 1 else 2 * Pow2(n - 1)
  }

  lemma {:induction false} DigitCount(u: nat, base: nat, n: nat)
    requires 2 <= base && 1 <= n && u < Pow2(n)
    ensures |Digits(u, base)| <= n
    decreases n
  {
    var q, d := LastDigit(u, base);
    if u >= base {
      DigitCount(q, base, n - 1);
    }
  }

  /** itoa's digits never overrun its 32-byte scratch. */
  lemma {:induction false} DigitsFitScratch(u: u32, base: nat)
    requires 2 <= base
    ensures |Digits(u, base)| <= 32
  {
    Pow2Is32();
    DigitCount(u, base, 32);
  }

  lemma {:induction false} Pow2Is32()
    ensures Pow2(32) == 0x1_0000_0000
  {
    assert Pow2(8) == 0x100;
    assert Pow2(16) == 0x1_0000;
    assert Pow2(24) == 0x100_0000;
  }

  /** An octet takes at most three digits, so its text with the NUL fits 4 bytes. */
  lemma {:induction false} OctetFits(o: byte)
    ensures |Digits(o, 10)| <= 3
  {
    if o >= 10 {
      assert |Digits(o / 10, 10)| <= 2;
    }
  }

  // ---------------------------------------------------------------- addresses

  /** A 32-bit word from its bytes, most significant first. */
  function Word(a: byte, b: byte, c: byte, d: byte): u32 {
    0x100_0000 * a + 0x1_0000 * b + 0x100 * c + d
  }

  /** htonl and ntohl: the four bytes reversed. */
  function Swap32(x: u32): u32 {
    Word(x % 0x100, x / 0x100 % 0x100, x / 0x1_0000 % 0x100, x / 0x100_0000)
  }

  lemma ByteOf(a: byte, b: byte, c: byte, d: byte)
    ensures Word(a, b, c, d) % 0x100 == d && Word(a, b, c, d) / 0x100 % 0x100 == c
    ensures Word(a, b, c, d) / 0x1_0000 % 0x100 == b && Word(a, b, c, d) / 0x100_0000 == a
  {
    var x := Word(a, b, c, d);
    assert x == 0x100 * (0x1_0000 * a + 0x100 * b + c) + d;
    assert x / 0x100 == 0x100 * (0x100 * a + b) + c;
    assert x / 0x1_0000 == 0x100 * a + b;
  }

  lemma SwapTwice(x: u32)
    ensures Swap32(Swap32(x)) == x
  {
    ByteOf(x % 0x100, x / 0x100 % 0x100, x / 0x1_0000 % 0x100, x / 0x100_0000);
    BytesMake(x);
  }

  lemma BytesMake(x: u32)
    ensures Word(x / 0x100_0000, x / 0x1_0000 % 0x100, x / 0x100 % 0x100, x % 0x100) == x
  {
    assert x / 0x1_0000 == x / 0x100 / 0x100 && x / 0x100_0000 == x / 0x1_0000 / 0x100;
  }

  /** The octets of a host-order address, dotted. */
  function Dotted(a: byte, b: byte, c: byte, d: byte): string {
    Digits(a, 10) + "." + Digits(b, 10) + "." + Digits(c, 10) + "." + Digits(d, 10)
  }

  /** What net_ip_to_string prints for an address in network order: its bytes from the lowest up. */
  function IpText(ip: u32): string {
    Dotted(ip % 0x100, ip / 0x100 % 0x100, ip / 0x1_0000 % 0x100, ip / 0x100_0000)
  }

  /** (ip << 8) | val in 32 bits. */
  function Joined(ip: u32, val: u32): u32 {
    Wrap(BitOr(Wrap(Shl(ip, 8)), val))
  }

  /** The value with one character more; anything but a dot counts as a digit. */
  function TakeChar(val: u32, c: char): u32 {
    Wrap(val * 10 + (c as int - '0' as int))
  }

  /** The loop of net_ip_from_string. */
  function ReadIp(ip: u32, val: u32, s: string): u32
    decreases |s|
  {
    if s == [] then Joined(ip, val)
    else if s[0] == '.' then ReadIp(Joined(ip, val), 0, s[1..])
    else ReadIp(ip, TakeChar(val, s[0]), s[1..])
  }

  function IpFromText(s: string): u32 {
    Swap32(ReadIp(0, 0, s))
  }

  lemma CharTaken(q: u32, d: nat)
    requires d < 10 && q * 10 + d < 0x1_0000_0000
    ensures TakeChar(q, DigitChar(d)) == q * 10 + d && DigitChar(d) != '.'
  {
    assert DigitChar(d) as int - '0' as int == d;
  }

  lemma {:induction false} ReadDigits(ip: u32, u: u32, rest: string)
    ensures ReadIp(ip, 0, Digits(u, 10) + rest) == ReadIp(ip, u, rest)
    decreases u
  {
    var q, d := LastDigit(u, 10);
    var last := [DigitChar(d)] + rest;
    CharTaken(q, d);
    assert last[0] == DigitChar(d) && last[1..] == rest;
    if u < 10 {
      assert Digits(u, 10) + rest == last;
    } else {
      assert Digits(u, 10) + rest == Digits(q, 10) + last;
      ReadDigits(ip, q, last);
    }
  }

  lemma {:induction false} ReadOctet(ip: u32, o: byte, rest: string)
    requires ip < 0x100_0000
    ensures ReadIp(ip, 0, Digits(o, 10) + ("." + rest)) == ReadIp(0x100 * ip + o, 0, rest)
  {
    JoinedIs(ip, o);
    var dot := "." + rest;
    assert dot[0] == '.' && dot[1..] == rest;
    ReadDigits(ip, o, dot);
  }

  lemma {:induction false} ReadLast(ip: u32, o: byte)
    requires ip < 0x100_0000
    ensures ReadIp(ip, 0, Digits(o, 10)) == 0x100 * ip + o
  {
    JoinedIs(ip, o);
    ReadDigits(ip, o, "");
    assert Digits(o, 10) + "" == Digits(o, 10);
  }

  lemma {:induction false} JoinedIs(ip: u32, o: byte)
    requires ip < 0x100_0000
    ensures Joined(ip, o) == 0x100 * ip + o
  {
    OctetOr(ip, o);
    ShlByte(ip);
    WrapSmall(Shl(ip, 8));
    WrapSmall(0x100 * ip + o);
  }

  lemma {:induction false} OctetOr(ip: nat, o: byte)
    ensures BitOr(Shl(ip, 8), o) == 0x100 * ip + o
  {
    ShlByte(ip);
    ShlByte(1);
    OrDisjoint(ip, o, 8);
  }

  lemma {:induction false} DottedRead(a: byte, b: byte, c: byte, d: byte)
    ensures ReadIp(0, 0, Dotted(a, b, c, d)) == Word(a, b, c, d)
  {
    var s3 := Digits(d, 10);
    var s2 := Digits(c, 10) + ("." + s3);
    var s1 := Digits(b, 10) + ("." + s2);
    assert Dotted(a, b, c, d) == Digits(a, 10) + ("." + s1);
    ReadOctet(0, a, s1);
    ReadOctet(a, b, s2);
    ReadOctet(0x100 * a + b, c, s3);
    ReadLast(0x1_0000 * a + 0x100 * b + c, d);
  }

  /** The text of every 32-bit address reads back as that address. */
  lemma {:induction false} IpRoundTrip(ip: u32)
    ensures IpFromText(IpText(ip)) == ip
  {
    DottedRead(ip % 0x100, ip / 0x100 % 0x100, ip / 0x1_0000 % 0x100, ip / 0x100_0000);
    SwapTwice(ip);
  }

  /** Two addresses never print the same text, and the text with its NUL fits 16 bytes. */
  lemma {:induction false} IpTextInjective(ip: u32, other: u32)
    ensures IpText(ip) == IpText(other) ==> ip == other
    ensures |IpText(ip)| <= 15
  {
    IpRoundTrip(ip);
    IpRoundTrip(other);
    OctetFits(ip % 0x100);
    OctetFits(ip / 0x100 % 0x100);
    OctetFits(ip / 0x1_0000 % 0x100);
    OctetFits(ip / 0x100_0000);
  }
}
