/** The Internet checksum of section 4.1 of RFC 1071 and the two-fold way src/net/net.c computes it. */
module OnesComplement {
  import opened Machine

  // ---------------------------------------------------------------- definition

  /** One's complement addition of 16-bit words: the carry comes back in at the bottom. */
  function OnesAdd(a: u16, b: u16): u16 {
    if a + b > 0xFFFF then a + b - 0xFFFF else a + b
  }

  /** The first word of a buffer as the machine loads it: least significant byte first, a last odd
      byte alone. */
  function FirstWord(b: seq<byte>): u16
    requires b != []
  {
    if |b| == 1 then b[0] else b[0] + 0x100 * (b[1] as int)
  }

  function Rest(b: seq<byte>): (r: seq<byte>)
    requires b != []
    ensures |r| < |b|
  {
    if |b| == 1 then [] else b[2..]
  }

  /** The one's complement sum of the words of a buffer. */
  function OnesSum(b: seq<byte>): u16
    decreases |b|
  {
    if b == [] then 0 else OnesAdd(FirstWord(b), OnesSum(Rest(b)))
  }

  /** The checksum: its complement. */
  function Checksum(b: seq<byte>): u16 {
    0xFFFF - OnesSum(b)
  }

  // ---------------------------------------------------------------- sums

  /** The plain sum of the words. */
  function WordSum(b: seq<byte>): nat
    decreases |b|
  {
    if b == [] then 0 else FirstWord(b) + WordSum(Rest(b))
  }

  /** The representative of a sum among 0 to 0xFFFF, 0 for 0 alone. */
  function Reduce(s: nat): u16 {
    if s == 0 then 0 else (s - 1) % 0xFFFF + 1
  }

  lemma ReduceIs(s: nat, m: int, r: nat)
    requires s == 0xFFFF * m + r && 1 <= r <= 0xFFFF && 0 < s
    ensures Reduce(s) == r
  {
  }

  lemma ReduceParts(s: nat)
    requires 0 < s
    ensures s == 0xFFFF * ((s - 1) / 0xFFFF) + Reduce(s) && 1 <= Reduce(s)
  {
  }

  lemma OnesAddReduces(w: u16, s: nat)
    ensures OnesAdd(w, Reduce(s)) == Reduce(w + s)
  {
    if 0 < s {
      ReduceParts(s);
      var m := (s - 1) / 0xFFFF;
      if w + Reduce(s) > 0xFFFF {
        ReduceIs(w + s, m + 1, w + Reduce(s) - 0xFFFF);
      } else {
        ReduceIs(w + s, m, w + Reduce(s));
      }
    } else if 0 < w {
      ReduceIs(w, 0, w);
    }
  }

  /** Adding with end-around carry is adding and reducing. */
  lemma {:induction false} OnesSumReduces(b: seq<byte>)
    ensures OnesSum(b) == Reduce(WordSum(b))
    decreases |b|
  {
    if b != [] {
      OnesSumReduces(Rest(b));
      OnesAddReduces(FirstWord(b), WordSum(Rest(b)));
    }
  }

  /** The two folds of the code: the second one without a mask, cut to 16 bits at the end. */
  function Folded(sum: u32): u16 {
    var s1 := sum / 0x1_0000 + sum % 0x1_0000;
    (s1 + s1 / 0x1_0000) % 0x1_0000
  }

  /** Two folds are enough for every 32-bit sum. */
  lemma TwoFoldsSuffice(sum: u32)
    ensures Folded(sum) == Reduce(sum)
  {
    var h, l := sum / 0x1_0000, sum % 0x1_0000;
    assert sum == 0xFFFF * h + (h + l);
    if h + l >= 0x1_0000 {
      ReduceIs(sum, h + 1, h + l - 0xFFFF);
    } else if 0 < h + l {
      ReduceIs(sum, h, h + l);
    }
  }

  lemma {:induction false} WordSumBound(b: seq<byte>)
    ensures WordSum(b) <= 0xFFFF * ((|b| + 1) / 2)
    decreases |b|
  {
    if b != [] {
      WordSumBound(Rest(b));
    }
  }

  /** The sum of a buffer of at most 131074 bytes fits 32 bits, so the folded accumulator is exact. */
  lemma {:induction false} SumFits(b: seq<byte>)
    requires |b| <= 131074
    ensures WordSum(b) < 0x1_0000_0000
    ensures 0xFFFF - Folded(Wrap(WordSum(b))) == Checksum(b)
  {
    SumBelow(b);
    OnesSumReduces(b);
    FoldedIs(WordSum(b), OnesSum(b));
  }

  lemma {:induction false} SumBelow(b: seq<byte>)
    requires |b| <= 131074
    ensures WordSum(b) < 0x1_0000_0000
  {
    WordSumBound(b);
    WordsBelow(|b|);
  }

  lemma WordsBelow(n: nat)
    requires n <= 131074
    ensures 0xFFFF * ((n + 1) / 2) < 0x1_0000_0000
  {
  }

  lemma FoldedIs(s: nat, r: u16)
    requires s < 0x1_0000_0000 && r == Reduce(s)
    ensures Folded(Wrap(s)) == r
  {
    FoldedIsReduced(s);
  }

  lemma FoldedIsReduced(s: nat)
    requires s < 0x1_0000_0000
    ensures Folded(Wrap(s)) == Reduce(s)
  {
    WrapSmall(s);
    TwoFoldsSuffice(s);
  }

  function Ones(n: nat): seq<byte> {
    if n == 0 then [] else [0xFF, 0xFF] + Ones(n - 1)
  }

  lemma {:induction false} SumOfOnes(n: nat)
    ensures |Ones(n)| == 2 * n && WordSum(Ones(n)) == 0xFFFF * n
  {
    if n != 0 {
      SumOfOnes(n - 1);
      assert Rest(Ones(n)) == Ones(n - 1);
    }
  }

  /** The bound is sharp: n = 65537 words of 0xFFFF fill the accumulator, and one odd byte more wraps
      it and gives a wrong sum. */
  lemma {:induction false} BoundIsSharp(n: nat)
    requires n == 65537
    ensures |Ones(n) + [1]| == 131075
    ensures Folded(Wrap(WordSum(Ones(n) + [1]))) != OnesSum(Ones(n) + [1])
  {
    SumOneMore(n);
    OnesSumReduces(Ones(n) + [1]);
    FullAccumulator(WordSum(Ones(n) + [1]));
  }

  lemma {:induction false} SumOneMore(n: nat)
    ensures |Ones(n) + [1]| == 2 * n + 1 && WordSum(Ones(n) + [1]) == 0xFFFF * n + 1
  {
    var b: seq<byte> := [1];
    SumOfOnes(n);
    SumConcat(Ones(n), b);
    assert WordSum(b) == 1;
  }

  // The wrapped sum folds to 0, the true one reduces to 1.
  lemma FullAccumulator(s: nat)
    requires s == 0x1_0000_0000
    ensures Folded(Wrap(s)) == 0 && Reduce(s) == 1
  {
    ReduceIs(s, 65537, 1);
  }

  // ---------------------------------------------------------------- verification

  lemma {:induction false} SumConcat(a: seq<byte>, b: seq<byte>)
    requires |a| % 2 == 0
    ensures WordSum(a + b) == WordSum(a) + WordSum(b)
    decreases |a|
  {
    if a == [] {
      assert a + b == b;
    } else {
      assert Rest(a + b) == Rest(a) + b;
      SumConcat(Rest(a), b);
    }
  }

  lemma {:induction false} SumSplit(b: seq<byte>, k: nat)
    requires k % 2 == 0 && k + 2 <= |b|
    ensures WordSum(b) == WordSum(b[..k]) + WordAt(b, k) + WordSum(b[k + 2..])
  {
    var rest := b[k..];
    assert b == b[..k] + rest;
    SumConcat(b[..k], rest);
    assert Rest(rest) == b[k + 2..];
  }

  /** Storing w in the two bytes at an even offset k, where they were v, moves the sum by w - v. */
  lemma {:induction false} SumStore(b: seq<byte>, k: nat, w: u16)
    requires k % 2 == 0 && k + 2 <= |b|
    ensures WordSum(Stored(b, k, w)) == WordSum(b) - WordAt(b, k) + w
  {
    var b' := Stored(b, k, w);
    SumSplit(b, k);
    SumSplit(b', k);
    assert b'[..k] == b[..k] && b'[k + 2..] == b[k + 2..];
    assert WordAt(b', k) == w;
  }

  function Stored(b: seq<byte>, k: nat, w: u16): seq<byte>
    requires k + 2 <= |b|
  {
    b[k := w % 0x100][k + 1 := w / 0x100]
  }

  function WordAt(b: seq<byte>, k: nat): u16
    requires k + 2 <= |b|
  {
    b[k] + 0x100 * (b[k + 1] as int)
  }

  /** The receiver's check: with the checksum stored in its zeroed field at an even offset, the
      checksum of the whole is 0. */
  lemma {:induction false} StoredVerifies(b: seq<byte>, k: nat)
    requires k % 2 == 0 && k + 2 <= |b| && WordAt(b, k) == 0
    ensures Checksum(Stored(b, k, Checksum(b))) == 0
  {
    var s := WordSum(b);
    OnesSumReduces(b);
    OnesSumReduces(Stored(b, k, Checksum(b)));
    SumStore(b, k, Checksum(b));
    if s == 0 {
      ReduceIs(0xFFFF, 0, 0xFFFF);
    } else {
      ReduceParts(s);
      ReduceIs(s + Checksum(b), (s - 1) / 0xFFFF, 0xFFFF);
    }
  }

  // Two sums s and s - v + w both stand for 0xFFFF only when v and w are equal or are 0 and 0xFFFF.
  lemma BothFull(s: nat, v: u16, w: u16)
    requires 0 < s && 0 < s - v + w && Reduce(s) == 0xFFFF
    ensures Reduce(s - v + w) == 0xFFFF <==> v == w || (w == 0xFFFF && v == 0) || (w == 0 && v == 0xFFFF)
  {
    var m := (s - 1) / 0xFFFF;
    ReduceParts(s);
    if w > v {
      ReduceIs(s - v + w, m + 1, w - v);
    } else if v - w < 0xFFFF {
      ReduceIs(s - v + w, m, 0xFFFF - v + w);
    } else {
      ReduceIs(s - v + w, m - 1, 0xFFFF);
    }
  }

  /** A buffer that verified and had one word changed verifies again exactly when 0 became 0xFFFF, or
      the reverse in a buffer that is not all zero then: every other change of a word is caught. */
  lemma {:induction false} OneWordChanged(b: seq<byte>, k: nat, w: u16)
    requires k % 2 == 0 && k + 2 <= |b| && Checksum(b) == 0 && w != WordAt(b, k)
    ensures Checksum(Stored(b, k, w)) == 0 <==>
            (w == 0xFFFF && WordAt(b, k) == 0) || (w == 0 && WordAt(b, k) == 0xFFFF && 0 < WordSum(Stored(b, k, w)))
  {
    OnesSumReduces(b);
    OnesSumReduces(Stored(b, k, w));
    SumStore(b, k, w);
    if 0 < WordSum(Stored(b, k, w)) {
      BothFull(WordSum(b), WordAt(b, k), w);
    }
  }

  // ---------------------------------------------------------------- byte order

  /** The words as the network numbers them: most significant byte first. */
  function NetworkSum(b: seq<byte>): nat
    decreases |b|
  {
    if b == [] then 0
    else 0x100 * (b[0] as int) + (if |b| == 1 then 0 else b[1] as int) + NetworkSum(Rest(b))
  }

  function SwapBytes(w: u16): u16 {
    0x100 * (w % 0x100) + w / 0x100
  }

  function SecondBytes(b: seq<byte>): nat
    decreases |b|
  {
    if b == [] then 0 else (if |b| == 1 then 0 else b[1] as int) + SecondBytes(Rest(b))
  }

  lemma {:induction false} SumsRelated(b: seq<byte>)
    ensures 0x100 * WordSum(b) == NetworkSum(b) + 0xFFFF * SecondBytes(b)
    ensures NetworkSum(b) == 0 <==> WordSum(b) == 0
    decreases |b|
  {
    if b != [] {
      SumsRelated(Rest(b));
    }
  }

  /** The sum does not depend on the byte order it is computed in: loading and storing words the
      machine's way gives the bytes of the sum in network order. */
  lemma {:induction false} ByteOrderIndependent(b: seq<byte>)
    ensures Reduce(NetworkSum(b)) == SwapBytes(OnesSum(b))
  {
    SumsRelated(b);
    OnesSumReduces(b);
    var s := WordSum(b);
    if 0 < s {
      ReduceParts(s);
      var r := Reduce(s);
      ReduceIs(NetworkSum(b), 0x100 * ((s - 1) / 0xFFFF) - SecondBytes(b) + r / 0x100, SwapBytes(r));
    }
  }

  // ---------------------------------------------------------------- TCP

  /** The 12 bytes in front of a TCP segment (section 3.1 of RFC 9293); the addresses are kept in
      network order in memory, the low 16 bits of the length go most significant byte first. */
  function Pseudo(src: u32, dst: u32, len: nat): seq<byte> {
    Bytes4(src) + Bytes4(dst) + [0, 6, len / 0x100 % 0x100, len % 0x100]
  }

  function Bytes4(x: u32): seq<byte> {
    [x % 0x100, x / 0x100 % 0x100, x / 0x1_0000 % 0x100, x / 0x100_0000]
  }
}
