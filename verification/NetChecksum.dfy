/** The checksum loops of src/net/net.c: a 32-bit accumulator that wraps, two folds and a complement. */
module NetChecksum {
  import opened Machine
  import opened OnesComplement

  // sum += x in 32 bits.
  method Add(sum: u32, x: u16, ghost rest: nat) returns (r: u32)
    ensures r == Wrap(sum + x) && Wrap(r + rest) == Wrap(sum + (x + rest))
  {
    r := (sum + x) % 0x1_0000_0000;
    WrapTwice(sum + x, rest);
  }

  lemma WrapTwice(a: nat, b: nat)
    ensures Wrap(Wrap(a) + b) == Wrap(a + b)
  {
    var q := a / 0x1_0000_0000;
    assert a + b == 0x1_0000_0000 * q + (Wrap(a) + b);
    WrapPeriod(Wrap(a) + b, q);
  }

  lemma {:induction false} WrapPeriod(x: nat, q: nat)
    ensures Wrap(0x1_0000_0000 * q + x) == Wrap(x)
  {
    if q != 0 {
      WrapPeriod(x, q - 1);
    }
  }

  /** The accumulator and the words still to come make the total. The quantifier keeps their sum folded. */
  ghost predicate Owes(sum: u32, rest: seq<byte>, total: u32) {
    forall s: seq<byte> | s == rest :: Wrap(sum + WordSum(s)) == total
  }

  // One word off the front of what is owed.
  method AddWord(sum: u32, x: u16, ghost rest: seq<byte>, ghost total: u32) returns (r: u32)
    requires rest != [] && x == FirstWord(rest) && Owes(sum, rest, total)
    ensures Owes(r, Rest(rest), total)
  {
    assert Wrap(sum + WordSum(rest)) == total;
    r := Add(sum, x, WordSum(Rest(rest)));
  }

  lemma NothingOwed(sum: u32, total: u32)
    requires Owes(sum, [], total)
    ensures sum == total
  {
    assert Wrap(sum + WordSum([])) == total;
    WrapSmall(sum);
  }

  // The loop over whole words, and the odd byte after it.
  method AddWords(start: u32, data: seq<byte>) returns (sum: u32)
    ensures sum == Wrap(start + WordSum(data))
  {
    ghost var total := Wrap(start + WordSum(data));
    sum := start;
    var len := |data|;
    assert data[0..] == data;
    while len > 1
      invariant 0 <= len <= |data| && Owes(sum, data[|data| - len..], total)
    {
      ghost var rest := data[|data| - len..];
      var i := |data| - len;
      assert rest[0] == data[i] && rest[1] == data[i + 1] && rest[2..] == data[i + 2..];
      sum := AddWord(sum, data[i] + 0x100 * (data[i + 1] as int), rest, total);
      len := len - 2;
    }
    if len == 1 {
      var last := data[|data| - 1];
      assert data[|data| - 1..] == [last];
      sum := AddWord(sum, last, [last], total);
    }
    NothingOwed(sum, total);
  }

  // The two folds and the complement.
  method Finish(sum: u32) returns (r: u16)
    ensures r == 0xFFFF - Folded(sum)
  {
    var s := sum / 0x1_0000 + sum % 0x1_0000;
    s := s + s / 0x1_0000;
    r := 0xFFFF - s % 0x1_0000;
  }

  /** net_checksum is the Internet checksum of every buffer of at most 131074 bytes; beyond that the
      accumulator may have wrapped. */
  method Checksum16(data: seq<byte>) returns (r: u16)
    ensures r == 0xFFFF - Folded(Wrap(WordSum(data)))
    ensures |data| <= 131074 ==> r == Checksum(data)
  {
    var sum := AddWords(0, data);
    r := Finish(sum);
    if |data| <= 131074 {
      SumFits(data);
    }
  }

  // *(uint32_t*)&a[at] = x
  method Put32(a: array<byte>, at: nat, x: u32)
    requires at + 4 <= a.Length
    modifies a
    ensures a[..] == old(a[..at]) + Bytes4(x) + old(a[at + 4..])
  {
    a[at], a[at + 1] := x % 0x100, x / 0x100 % 0x100;
    a[at + 2], a[at + 3] := x / 0x1_0000 % 0x100, x / 0x100_0000;
  }

  /** The pseudo-header laid out in its 12-byte buffer. */
  method Header(src: u32, dst: u32, len: nat) returns (pseudo: array<byte>)
    ensures pseudo[..] == Pseudo(src, dst, len)
  {
    pseudo := new byte[12](_ => 0);
    Put32(pseudo, 0, src);
    Put32(pseudo, 4, dst);
    assert pseudo[..8] == Bytes4(src) + Bytes4(dst);
    pseudo[8], pseudo[9] := 0, 6;
    pseudo[10], pseudo[11] := len / 0x100 % 0x100, len % 0x100;
  }

  /** tcp_checksum is the Internet checksum of the pseudo-header followed by the segment. */
  method TcpChecksum(src: u32, dst: u32, seg: seq<byte>) returns (r: u16)
    ensures r == 0xFFFF - Folded(Wrap(WordSum(Pseudo(src, dst, |seg|) + seg)))
    ensures |seg| <= 131062 ==> r == Checksum(Pseudo(src, dst, |seg|) + seg)
  {
    ghost var whole := Pseudo(src, dst, |seg|) + seg;
    var pseudo := Header(src, dst, |seg|);
    var sum := AddWords(0, pseudo[..]);
    sum := AddWords(sum, seg);
    WrapTwice(WordSum(Pseudo(src, dst, |seg|)), WordSum(seg));
    SumConcat(Pseudo(src, dst, |seg|), seg);
    r := Finish(sum);
    if |seg| <= 131062 {
      SumFits(whole);
    }
  }
}
