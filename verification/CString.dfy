/** The number and address text loops: itoa and atoi of src/libc/string.c, strtol of
    src/libc/stdlib.c, net_ip_from_string and net_ip_to_string of src/net/net.c. */
module CString {
  import opened Machine
  import opened NumberText

  // u % base and u / base.
  method TakeLast(u: nat, base: nat) returns (q: nat, d: nat)
    requires 2 <= base
    ensures d < base && q <= u / 2 && q <= u
    ensures q == 0 ==> Digits(u, base) == [DigitChar(d)]
    ensures q != 0 ==> q < u && Digits(u, base) == Digits(q, base) + [DigitChar(d)]
  {
    q, d := u / base, u % base;
    DivParts(u, base);
  }

  ghost function Reversed(s: string): (r: string)
    ensures |r| == |s|
  {
    if s == "" then "" else [s[|s| - 1]] + Reversed(s[..|s| - 1])
  }

  lemma {:induction false} ReversedMore(s: string, c: char)
    ensures Reversed(s + [c]) == [c] + Reversed(s)
  {
    assert (s + [c])[..|s|] == s;
  }

  // One turn of the loop: the last digit not yet taken out of `text`.
  method PutDigit(left: nat, base: nat, tmp: array<char>, n: nat, ghost text: string) returns (q: nat)
    requires 2 <= base && n < tmp.Length && text == Digits(left, base) + Reversed(tmp[..n])
    modifies tmp
    ensures q <= left / 2 && (q != 0 ==> q < left)
    ensures q == 0 ==> text == Reversed(tmp[..n + 1])
    ensures q != 0 ==> text == Digits(q, base) + Reversed(tmp[..n + 1])
  {
    var d: nat;
    q, d := TakeLast(left, base);
    ghost var before := tmp[..n];
    tmp[n] := DigitChar(d);
    assert tmp[..n + 1] == before + [DigitChar(d)];
    ReversedMore(before, DigitChar(d));
  }

  lemma {:induction false} StillRoom(left: nat, base: nat, text: string, n: nat, done: string)
    requires 2 <= base && |text| <= 32 && text == Digits(left, base) + done && |done| == n
    ensures n < 32
  {
  }

  // The do-while loop: the digits into the scratch, last one first. The scratch never overruns.
  method Scratch(u: u32, base: nat, ghost text: string) returns (tmp: array<char>, n: nat)
    requires 2 <= base && text == Digits(u, base)
    ensures fresh(tmp) && tmp.Length == 32 && 1 <= n <= 32
    ensures Reversed(tmp[..n]) == text
  {
    tmp := new char[32](_ => '\0');
    DigitsFitScratch(u, base);
    var left := PutDigit(u, base, tmp, 0, text);
    n := 1;
    while left > 0
      invariant 1 <= n <= 32 && |text| <= 32
      invariant left == 0 ==> text == Reversed(tmp[..n])
      invariant left != 0 ==> text == Digits(left, base) + Reversed(tmp[..n])
    {
      StillRoom(left, base, text, n, Reversed(tmp[..n]));
      left := PutDigit(left, base, tmp, n, text);
      n := n + 1;
    }
  }

  // while (i > 0) buf[j++] = tmp[--i]
  method Unload(tmp: array<char>, n: nat, buf: array<char>, at: nat) returns (len: nat)
    requires tmp != buf && n <= tmp.Length && at + n < buf.Length
    modifies buf
    ensures len == at + n && buf[..len] == old(buf[..at]) + Reversed(tmp[..n]) && buf[len..] == old(buf[at + n..])
  {
    var i := n;
    len := at;
    ghost var text := buf[..at] + Reversed(tmp[..n]);
    while i > 0
      invariant 0 <= i <= n && len == at + n - i && buf[at + n..] == old(buf[at + n..])
      invariant buf[..len] + Reversed(tmp[..i]) == text
    {
      ghost var done := buf[..len];
      assert tmp[..i][..i - 1] == tmp[..i - 1];
      i := i - 1;
      buf[len] := tmp[i];
      assert buf[..len + 1] == done + [tmp[i]];
      len := len + 1;
    }
  }

  /** itoa writes the text and its NUL and nothing behind them. */
  method Itoa(value: int32, buf: array<char>, base: nat) returns (len: nat)
    requires 2 <= base && |Text(value, base)| < buf.Length
    modifies buf
    ensures len == |Text(value, base)| && buf[..len] == Text(value, base) && buf[len] == '\0'
    ensures buf[len + 1..] == old(buf[len + 1..])
  {
    ghost var digits := Digits(Magnitude(value, base), base);
    assert Text(value, base) == (if PrintsSign(value, base) then "-" else "") + digits;
    len := PrintSigned(value, buf, base, digits);
  }

  method PrintSigned(value: int32, buf: array<char>, base: nat, ghost digits: string) returns (len: nat)
    requires 2 <= base && digits == Digits(Magnitude(value, base), base)
    requires |digits| + (if PrintsSign(value, base) then 1 else 0) < buf.Length
    modifies buf
    ensures len == |digits| + (if PrintsSign(value, base) then 1 else 0) && buf[len] == '\0'
    ensures buf[..len] == (if PrintsSign(value, base) then "-" else "") + digits
    ensures buf[len + 1..] == old(buf[len + 1..])
  {
    var u := Unsigned(value, base);
    var tmp, n := Scratch(u, base, digits);
    var at := 0;
    if value < 0 && base == 10 {
      buf[0] := '-';
      at := 1;
    }
    assert buf[..at] == if PrintsSign(value, base) then "-" else "";
    ghost var behind := buf[at + n + 1..];
    assert behind == old(buf[at + n + 1..]) && buf[at + n..][1..] == behind;
    len := Unload(tmp, n, buf, at);
    assert buf[len..][1..] == behind;
    buf[len] := '\0';
  }

  // u = (unsigned int)-value, or (unsigned int)value
  method Unsigned(value: int32, base: nat) returns (u: u32)
    ensures u == Magnitude(value, base)
  {
    u := if value < 0 && base == 10 then Wrap(0 - value) else Wrap(value);
  }

  // neg ? -n : n
  method Negated(neg: bool, n: int32) returns (r: int32)
    ensures r == if neg then Signed(0 - n) else n
  {
    r := if neg then Signed(0 - n) else n;
  }

  // The digit loop shared by atoi and strtol.
  method ReadNumber(s: string, start: nat, base: int) returns (result: int32, end: nat)
    requires start <= |s|
    ensures start <= end <= |s| && Accumulate(0, s[start..], base) == Parsed(result, s[end..])
  {
    result, end := 0, start;
    while end < |s|
      invariant start <= end <= |s|
      invariant Accumulate(result, s[end..], base) == Accumulate(0, s[start..], base)
    {
      var digit := DigitValue(s[end]);
      if digit < 0 || digit >= base {
        return;
      }
      assert s[end..][1..] == s[end + 1..];
      result := Signed(WithDigit(result, s[end], base));
      end := end + 1;
    }
  }

  // The blanks and the sign.
  method SkipLead(s: string, tabs: bool) returns (neg: bool, at: nat)
    ensures at <= |s| && neg == IsNegative(SkipBlanks(s, tabs)) && s[at..] == SkipSign(SkipBlanks(s, tabs))
  {
    at := 0;
    while at < |s| && (s[at] == ' ' || (tabs && s[at] == '\t'))
      invariant at <= |s| && SkipBlanks(s[at..], tabs) == SkipBlanks(s, tabs)
    {
      assert s[at..][1..] == s[at + 1..];
      at := at + 1;
    }
    neg := at < |s| && s[at] == '-';
    assert at < |s| ==> s[at..][1..] == s[at + 1..];
    if at < |s| && (s[at] == '-' || s[at] == '+') {
      at := at + 1;
    }
  }

  /** atoi reads what its specification reads. */
  method ReadInt(s: string) returns (r: int32)
    ensures r == Atoi(s)
  {
    var neg, at := SkipLead(s, false);
    var n, end := ReadNumber(s, at, 10);
    r := Negated(neg, n);
    NumberIs(neg, s[at..], 10, n, s[end..], r);
  }

  /** strtol returns the value and where the rest begins. */
  method ReadLong(s: string, base: int) returns (r: int32, end: nat)
    ensures end <= |s| && Strtol(s, base) == Parsed(r, s[end..])
  {
    var neg, at := SkipLead(s, true);
    ghost var u := s[at..];
    var b, start := base, at;
    var prefixed := at + 1 < |s| && s[at] == '0' && (s[at + 1] == 'x' || s[at + 1] == 'X');
    if base == 0 {
      if prefixed {
        b, start := 16, at + 2;
      } else if at < |s| && s[at] == '0' {
        b := 8;
      } else {
        b := 10;
      }
    } else if base == 16 && prefixed {
      start := at + 2;
    }
    assert prefixed == HexPrefix(u) && (prefixed ==> u[2..] == s[at + 2..]);
    var n: int32;
    n, end := ReadNumber(s, start, b);
    r := Negated(neg, n);
    NumberIs(neg, s[start..], b, n, s[end..], r);
  }

  // ---------------------------------------------------------------- addresses

  /** net_ip_from_string: the four octets joined and brought into network order. */
  method IpFromString(s: string) returns (r: u32)
    ensures r == IpFromText(s)
  {
    var ip: u32, val: u32, i := 0, 0, 0;
    while i < |s|
      invariant 0 <= i <= |s| && ReadIp(ip, val, s[i..]) == ReadIp(0, 0, s)
    {
      assert s[i..][1..] == s[i + 1..];
      if s[i] == '.' {
        ip, val := Joined(ip, val), 0;
      } else {
        val := TakeChar(val, s[i]);
      }
      i := i + 1;
    }
    ip := Joined(ip, val);
    r := Swap32(ip);
  }

  /** (ip >> (i * 8)) & 0xFF */
  function OctetOf(h: u32, i: nat): byte {
    if i == 0 then h % 0x100 else if i == 1 then h / 0x100 % 0x100
    else if i == 2 then h / 0x1_0000 % 0x100 else h / 0x100_0000
  }

  /** The text of the octets below i, highest first. */
  ghost function OctetsText(h: u32, i: nat): string {
    if i == 0 then "" else Digits(OctetOf(h, i - 1), 10) + (if i > 1 then "." else "") + OctetsText(h, i - 1)
  }

  lemma {:induction false} OctetsAre(ip: u32)
    ensures OctetsText(Swap32(ip), 4) == IpText(ip)
  {
    var a, b, c, d := ip % 0x100, ip / 0x100 % 0x100, ip / 0x1_0000 % 0x100, ip / 0x100_0000;
    ByteOf(a, b, c, d);
    OctetsOf(Swap32(ip), a, b, c, d);
  }

  lemma {:induction false} OctetsOf(h: u32, a: byte, b: byte, c: byte, d: byte)
    requires OctetOf(h, 3) == a && OctetOf(h, 2) == b && OctetOf(h, 1) == c && OctetOf(h, 0) == d
    ensures OctetsText(h, 4) == Dotted(a, b, c, d)
  {
    assert OctetsText(h, 1) == Digits(d, 10);
    assert OctetsText(h, 2) == Digits(c, 10) + "." + OctetsText(h, 1);
    assert OctetsText(h, 3) == Digits(b, 10) + "." + OctetsText(h, 2);
    assert OctetsText(h, 4) == Digits(a, 10) + "." + OctetsText(h, 3);
  }

  // memcpy(str + pos, buf, len)
  method Append(str: array<char>, pos: nat, buf: array<char>, len: nat)
    requires str != buf && len <= buf.Length && pos + len <= str.Length
    modifies str
    ensures str[..pos + len] == old(str[..pos]) + buf[..len]
  {
    for k := 0 to len
      invariant str[..pos + k] == old(str[..pos]) + buf[..k]
    {
      str[pos + k] := buf[k];
      assert str[..pos + k + 1] == str[..pos + k] + [buf[k]];
      assert buf[..k + 1] == buf[..k] + [buf[k]];
    }
  }

  /** net_ip_to_string: the dotted text and its NUL. */
  method IpToString(ip: u32, str: array<char>)
    requires 16 <= str.Length
    modifies str
    ensures |IpText(ip)| <= 15
    ensures str[..|IpText(ip)|] == IpText(ip) && str[|IpText(ip)|] == '\0'
  {
    var h := Swap32(ip);
    OctetsAre(ip);
    IpTextInjective(ip, ip);
    var pos := WriteOctets(h, str, IpText(ip));
    str[pos] := '\0';
  }

  method WriteOctets(h: u32, str: array<char>, ghost text: string) returns (pos: nat)
    requires text == OctetsText(h, 4) && |text| < str.Length
    modifies str
    ensures pos == |text| && str[..pos] == text
  {
    pos := 0;
    var i := 4;
    while i > 0
      invariant 0 <= i <= 4 && pos <= |text|
      invariant str[..pos] + OctetsText(h, i) == text
    {
      i := i - 1;
      ghost var done, rest := str[..pos], OctetsText(h, i);
      ghost var octet := Digits(OctetOf(h, i), 10) + (if i > 0 then "." else "");
      assert text == done + octet + rest;
      pos := AppendOctet(OctetOf(h, i), str, pos, i > 0, octet);
      assert str[..pos] == done + octet;
    }
  }

  lemma OctetText(octet: byte)
    ensures Text(octet, 10) == Digits(octet, 10)
  {
    WrapSmall(octet);
  }

  method AppendOctet(octet: byte, str: array<char>, pos: nat, dot: bool, ghost text: string) returns (next: nat)
    requires text == Digits(octet, 10) + (if dot then "." else "") && pos + |text| < str.Length
    modifies str
    ensures next == pos + |text| && str[..next] == old(str[..pos]) + text
  {
    var buf := new char[4](_ => '\0');
    ghost var digits := Digits(octet, 10);
    OctetFits(octet);
    OctetText(octet);
    var len := Itoa(octet, buf, 10);
    next := AppendDotted(str, pos, buf, len, dot, digits);
  }

  method AppendDotted(str: array<char>, pos: nat, buf: array<char>, len: nat, dot: bool, ghost digits: string)
    returns (next: nat)
    requires str != buf && len <= buf.Length && buf[..len] == digits
    requires pos + len + 1 < str.Length + (if dot then 0 else 1)
    modifies str
    ensures next == pos + len + (if dot then 1 else 0)
    ensures str[..next] == old(str[..pos]) + (digits + if dot then "." else "")
  {
    Append(str, pos, buf, len);
    next := pos + len;
    if dot {
      ghost var done := str[..next];
      str[next] := '.';
      next := next + 1;
      assert str[..next] == done + ".";
    }
  }
}
