/** The two name loops of src/net/dns.c, dns_encode_name and dns_decode_name, over byte buffers. */
module DnsCode {
  import opened Machine
  import opened DnsNames

  // memcpy(out + at, src, |src|)
  method Copy(out: array<byte>, at: nat, src: text)
    requires at + |src| <= out.Length
    modifies out
    ensures out[..at + |src|] == old(out[..at]) + src && out[at + |src|..] == old(out[at + |src|..])
  {
    for k := 0 to |src|
      invariant out[..at + k] == old(out[..at]) + src[..k]
      invariant out[at + |src|..] == old(out[at + |src|..])
    {
      ghost var done := out[..at + k];
      out[at + k] := src[k];
      assert out[..at + k + 1] == done + [src[k]];
      assert src[..k + 1] == src[..k] + [src[k]];
    }
    assert src[..|src|] == src;
  }

  method PutByte(out: array<byte>, at: nat, b: byte)
    requires at < out.Length
    modifies out
    ensures out[..at + 1] == old(out[..at]) + [b] && out[at + 1..] == old(out[at + 1..])
  {
    ghost var before := out[..at];
    out[at] := b;
    assert out[..at + 1] == before + [b];
  }

  lemma {:induction false} LowByteIs(n: nat)
    ensures LowByte(n) == n % 0x100
  {
    if n >= 0x100 {
      LowByteIs(n - 0x100);
    }
  }

  // One label behind what was written: its length cut to a byte, and its bytes.
  method PutLabel(out: array<byte>, at: nat, l: text) returns (next: nat)
    requires at + 1 + |l| <= out.Length
    modifies out
    ensures next == at + 1 + |l| && out[..next] == old(out[..at]) + Label(l) && out[next..] == old(out[at + 1 + |l|..])
  {
    LowByteIs(|l|);
    ghost var behind := out[at + 1 + |l|..];
    PutByte(out, at, |l| % 0x100);
    assert out[at + 1..][|l|..] == behind;
    Copy(out, at + 1, l);
    next := at + 1 + |l|;
  }

  // The labels of a text whose first label ends at k.
  lemma {:induction false} FirstLabel(s: text, k: nat)
    requires k <= |s| && NoDot(s[..k]) && (k < |s| ==> s[k] == DOT)
    ensures k == |s| ==> Labels(Split(s)) == Label(s)
    ensures k < |s| ==> Labels(Split(s)) == Label(s[..k]) + Labels(Split(s[k + 1..]))
  {
    if k < |s| {
      SplitAtDot(s, k);
    } else {
      assert s[..k] == s;
      SplitWhole(s);
      assert Labels([s]) == Label(s) + Labels([]);
    }
  }

  /** dns_encode_name writes the encoding and nothing behind it. */
  method EncodeName(name: text, out: array<byte>) returns (outPos: nat)
    requires |name| + 2 <= out.Length
    modifies out
    ensures outPos == |name| + 2 && out[..outPos] == Encode(name) && out[outPos..] == old(out[|name| + 2..])
  {
    LabelsLength(name);
    ghost var all := Labels(Split(name));
    outPos := PutLabels(name, out, all);
    ghost var behind := out[|name| + 2..];
    assert out[outPos..][1..] == behind;
    PutByte(out, outPos, 0);
    outPos := outPos + 1;
  }

  /** What is still to be written: the labels of a text. The quantifier keeps them folded. */
  ghost predicate Owed(done: text, rest: text, all: text) {
    forall ls | ls == Split(rest) :: all == done + Labels(ls)
  }

  // The text from a on begins with the part up to i.
  lemma SegmentFront(name: text, a: nat, i: nat)
    requires a <= i <= |name|
    ensures name[a..][..i - a] == name[a..i]
    ensures i < |name| ==> name[a..][i - a] == name[i] && name[a..][i - a + 1..] == name[i + 1..]
  {
  }

  lemma NoDotMore(name: text, a: nat, i: nat)
    requires a <= i < |name| && NoDot(name[a..i]) && name[i] != DOT
    ensures NoDot(name[a..i + 1])
  {
    assert name[a..i + 1] == name[a..i] + [name[i]];
  }

  // The loop over the characters, the end of the text included.
  method PutLabels(name: text, out: array<byte>, ghost all: text) returns (outPos: nat)
    requires all == Labels(Split(name)) && |all| == |name| + 1 < out.Length
    modifies out
    ensures outPos == |all| && out[..outPos] == all && out[outPos..] == old(out[|all|..])
  {
    outPos := 0;
    var segStart, i, more := 0, 0, true;
    assert name[0..] == name;
    while more
      invariant 0 <= segStart <= i <= |name| && outPos <= |all|
      invariant more ==> NoDot(name[segStart..i]) && Owed(out[..outPos], name[segStart..], all)
      invariant !more ==> all == out[..outPos]
      invariant out[|all|..] == old(out[|all|..])
      decreases |name| - i, more
    {
      if i == |name| || name[i] == DOT {
        ghost var rest := name[segStart..];
        SegmentFront(name, segStart, i);
        outPos := PutFirst(out, outPos, name[segStart..i], rest, all);
        segStart := if i < |name| then i + 1 else i;
        more := i < |name|;
      } else {
        NoDotMore(name, segStart, i);
      }
      i := if more then i + 1 else i;
    }
  }

  // The first label of what is owed.
  method PutFirst(out: array<byte>, at: nat, l: text, ghost rest: text, ghost all: text) returns (next: nat)
    requires |l| <= |rest| && rest[..|l|] == l && NoDot(l) && (|l| < |rest| ==> rest[|l|] == DOT)
    requires at <= |all| <= out.Length && Owed(out[..at], rest, all)
    modifies out
    ensures next <= |all| && out[|all|..] == old(out[|all|..])
    ensures if |l| < |rest| then Owed(out[..next], rest[|l| + 1..], all) else all == out[..next]
  {
    FirstLabel(rest, |l|);
    ghost var others := if |l| < |rest| then Labels(Split(rest[|l| + 1..])) else [];
    assert all == out[..at] + Labels(Split(rest));
    assert |l| == |rest| ==> rest == l;
    assert Labels(Split(rest)) == Label(l) + others;
    next := PutSegment(out, at, l, all, others);
  }

  method PutSegment(out: array<byte>, at: nat, l: text, ghost all: text, ghost rest: text) returns (next: nat)
    requires at <= |all| <= out.Length && all == out[..at] + (Label(l) + rest)
    modifies out
    ensures next <= |all| && all == out[..next] + rest && out[|all|..] == old(out[|all|..])
  {
    ghost var behind := out[|all|..];
    assert |all| == at + 1 + |l| + |rest|;
    ghost var tail := out[at + 1 + |l|..];
    assert tail[|rest|..] == behind;
    next := PutLabel(out, at, l);
    assert out[|all|..] == out[next..][|rest|..];
  }

  // ---------------------------------------------------------------- reading

  // (len & 0xC0) == 0xC0
  method IsPointer(len: byte) returns (r: bool)
    ensures r == (len >= 0xC0)
  {
    r := BitAnd(len, 0xC0) == 0xC0;
    PointerMark(len);
  }

  lemma {:induction false} PointerMark(len: byte)
    ensures BitAnd(len, 0xC0) == 0xC0 <==> len >= 0xC0
  {
    var a, b := len / 0x40, len % 0x40;
    ShlByte(a);
    ShlByte(3);
    ShlByte(1);
    ShlByte(BitAnd(a, 3));
    AndHighMask(a, b, 3, 6);
    TwoBits(a);
  }

  lemma {:induction false} TwoBits(a: nat)
    requires a < 4
    ensures BitAnd(a, 3) == a
  {
    assert a / 2 == 0 || a / 2 == 1;
    assert BitAnd(a / 2, 1) == a / 2;
  }

  // ((uint16_t)(len & 0x3F) << 8) | lo
  method FollowPointer(len: byte, lo: byte) returns (pos: nat)
    requires len >= 0xC0
    ensures pos == Pointer(len, lo)
  {
    pos := BitOr(Shl(BitAnd(len, 0x3F), 8), lo);
    PointerBits(len, lo);
  }

  lemma {:induction false} PointerBits(len: byte, lo: byte)
    requires len >= 0xC0
    ensures BitOr(Shl(BitAnd(len, 0x3F), 8), lo) == Pointer(len, lo)
  {
    var x := len - 0xC0;
    ShlByte(3);
    ShlByte(1);
    AndLowMask(3, x, 6);
    assert BitAnd(len, 0x3F) == x;
    ShlByte(x);
    ShlByte(1);
    OrDisjoint(x, lo, 8);
  }

  // A label behind the text so far, and a dot between them unless it is the first.
  method TakeLabel(out: array<byte>, outPos: nat, l: text) returns (next: nat)
    requires outPos <= out.Length && |Glued(out[..outPos])| + |l| <= out.Length
    modifies out
    ensures next <= out.Length && out[..next] == Glued(old(out[..outPos])) + l
  {
    next := outPos;
    if outPos > 0 {
      PutByte(out, next, DOT);
      next := next + 1;
    }
    assert out[..next] == Glued(old(out[..outPos]));
    Copy(out, next, l);
    next := next + |l|;
  }

  ghost function JumpOf(jumped: bool, to: nat): Jump {
    if jumped then Back(to) else NotYet
  }

  /** The code's variables hold the text and the jump. */
  ghost predicate Carried(out: array<byte>, outPos: nat, text: text, jumped: bool, jumpPos: nat, jump: Jump)
    reads out
  {
    outPos <= out.Length && out[..outPos] == text && jump == JumpOf(jumped, jumpPos)
  }

  /** Where a run stands: `all` is what the whole of it gives, and its text is shorter than `room`. The
      quantifier keeps Decode folded where nobody names it. */
  ghost predicate Stands(buf: text, pos: nat, text: text, jump: Jump, left: nat, all: Outcome, room: nat) {
    && (forall n | n == left :: Decode(buf, pos, text, jump, n) == all)
    && LengthOf(buf, pos, |text|, left) < room
  }

  lemma {:induction false} NextStands(buf: text, pos: nat, text: text, jump: Jump, left: nat, all: Outcome, room: nat)
    requires Stands(buf, pos, text, jump, left, all, room) && 0 < left && Turn(buf, pos) >= 0
    ensures Stands(buf, Turn(buf, pos), TextAfter(buf, pos, text), JumpAfter(buf, pos, jump), left - 1, all, room)
    ensures LengthAfter(buf, pos, |text|) < room
  {
    assert Decode(buf, pos, text, jump, left) == all;
    AddedLength(buf, pos, text);
  }

  // The outcome when no turn is left, or the next one is the last.
  lemma {:induction false} LastIs(buf: text, pos: nat, text: text, jump: Jump, left: nat, all: Outcome, room: nat)
    requires Stands(buf, pos, text, jump, left, all, room)
    ensures |text| < room && (left == 0 ==> all == OutOfSteps)
    ensures left != 0 && Turn(buf, pos) < 0 ==> all == Ending(buf, pos, text, jump)
  {
    assert Decode(buf, pos, text, jump, left) == all;
  }

  // The turn of a label.
  method LabelTurn(buf: text, pos: nat, out: array<byte>, outPos: nat,
                   ghost jump: Jump, ghost left: nat, ghost all: Outcome)
    returns (next: nat)
    requires pos < |buf| && 0 < buf[pos] < 0xC0 && pos + 1 + buf[pos] <= |buf| && 0 < left
    requires outPos <= out.Length && Stands(buf, pos, out[..outPos], jump, left, all, out.Length)
    modifies out
    ensures next <= out.Length && Stands(buf, pos + 1 + buf[pos], out[..next], jump, left - 1, all, out.Length)
  {
    ghost var text := out[..outPos];
    NextStands(buf, pos, text, jump, left, all, out.Length);
    AddedLength(buf, pos, text);
    BytesSlice(buf, pos + 1, buf[pos]);
    next := TakeLabel(out, outPos, buf[pos + 1..pos + 1 + buf[pos]]);
    assert out[..next] == TextAfter(buf, pos, text);
  }

  // The turn of a pointer.
  method PointerTurn(buf: text, pos: nat, jumped: bool, jumpPos: nat,
                     ghost text: text, ghost left: nat, ghost all: Outcome, ghost room: nat)
    returns (to: nat, back: nat)
    requires pos + 1 < |buf| && buf[pos] >= 0xC0 && 0 < left
    requires Stands(buf, pos, text, JumpOf(jumped, jumpPos), left, all, room)
    ensures Stands(buf, to, text, JumpOf(true, back), left - 1, all, room)
  {
    NextStands(buf, pos, text, JumpOf(jumped, jumpPos), left, all, room);
    back := if jumped then jumpPos else pos + 2;
    to := FollowPointer(buf[pos], buf[pos + 1]);
    assert JumpAfter(buf, pos, JumpOf(jumped, jumpPos)) == Back(back);
  }

  // A turn that does not end the run, unless it would read behind the buffer.
  method OneTurn(buf: text, pos: nat, out: array<byte>, outPos: nat, jumped: bool, jumpPos: nat,
                 ghost text: text, ghost jump: Jump, ghost left: nat, ghost all: Outcome)
    returns (behind: bool, pos': nat, outPos': nat, jumped': bool, jumpPos': nat, ghost text': text, ghost jump': Jump)
    requires pos < |buf| && buf[pos] != 0 && 0 < left && Carried(out, outPos, text, jumped, jumpPos, jump)
    requires Stands(buf, pos, text, jump, left, all, out.Length)
    modifies out
    ensures Carried(out, outPos', text', jumped', jumpPos', jump')
    ensures if behind then all == Overread else Stands(buf, pos', text', jump', left - 1, all, out.Length)
  {
    LastIs(buf, pos, text, jump, left, all, out.Length);
    var len := buf[pos];
    behind, pos', outPos', jumped', jumpPos', text' := false, pos, outPos, jumped, jumpPos, text;
    var pointer := IsPointer(len);
    if pointer {
      if pos + 1 >= |buf| {
        behind := true;
      } else {
        pos', jumpPos' := PointerTurn(buf, pos, jumped, jumpPos, text, left, all, out.Length);
        jumped' := true;
      }
    } else if pos + 1 + len > |buf| {
      behind := true;
    } else {
      outPos' := LabelTurn(buf, pos, out, outPos, jump, left, all);
      pos', text' := pos + 1 + len, out[..outPos'];
    }
    jump' := JumpOf(jumped', jumpPos');
  }

  // if (...) out[out_pos] = 0; return next
  method Close(out: array<byte>, outPos: nat, next: nat, ended: bool) returns (r: Outcome)
    requires outPos < out.Length
    modifies out
    ensures r == Done(old(out[..outPos]), next, ended) && out[..outPos] == r.text && (ended ==> out[outPos] == 0)
  {
    if ended {
      out[outPos] := 0;
    }
    r := Done(out[..outPos], next, ended);
  }

  /** What the output buffer holds after a run. */
  ghost predicate Holds(out: array<byte>, r: Outcome)
    reads out
  {
    r.Done? ==> |r.text| < out.Length && out[..|r.text|] == r.text && (r.ended ==> out[|r.text|] == 0)
  }

  /** dns_decode_name does what Decode says, for an output buffer with room for the text it reads
      (DnsNames.DoneLength) and a NUL. */
  method DecodeName(buf: text, offset: nat, out: array<byte>, steps: nat) returns (r: Outcome)
    requires LengthOf(buf, offset, 0, steps) < out.Length
    modifies out
    ensures r == Decode(buf, offset, [], NotYet, steps) && Holds(out, r)
  {
    r := Turns(buf, offset, out, steps, Decode(buf, offset, [], NotYet, steps));
  }

  // The loop.
  method Turns(buf: text, offset: nat, out: array<byte>, steps: nat, ghost all: Outcome) returns (r: Outcome)
    requires Carried(out, 0, [], false, 0, NotYet) && Stands(buf, offset, [], NotYet, steps, all, out.Length)
    modifies out
    ensures r == all && Holds(out, r)
  {
    ghost var text: text, jump := [], NotYet;
    var pos: nat, outPos: nat, jumped, jumpPos: nat, left := offset, 0, false, 0, steps;
    while left > 0 && pos < |buf| && buf[pos] != 0
      invariant 0 <= left <= steps && Carried(out, outPos, text, jumped, jumpPos, jump)
      invariant Stands(buf, pos, text, jump, left, all, out.Length)
    {
      var behind: bool;
      behind, pos, outPos, jumped, jumpPos, text, jump :=
        OneTurn(buf, pos, out, outPos, jumped, jumpPos, text, jump, left, all);
      if behind {
        return Overread;
      }
      left := left - 1;
    }
    r := Finish(buf, pos, out, outPos, jumped, jumpPos, left, text, jump, all);
  }

  // Behind the loop: out of turns, at the end of the name, or behind the buffer.
  method Finish(buf: text, pos: nat, out: array<byte>, outPos: nat, jumped: bool, jumpPos: nat, left: nat,
                ghost text: text, ghost jump: Jump, ghost all: Outcome)
    returns (r: Outcome)
    requires left == 0 || pos >= |buf| || buf[pos] == 0
    requires Carried(out, outPos, text, jumped, jumpPos, jump) && Stands(buf, pos, text, jump, left, all, out.Length)
    modifies out
    ensures r == all && Holds(out, r)
  {
    LastIs(buf, pos, text, jump, left, all, out.Length);
    if left == 0 {
      return OutOfSteps;
    } else if pos < |buf| {
      r := Close(out, outPos, if jumped then jumpPos else pos + 1, !jumped);
    } else {
      r := Close(out, outPos, pos, true);
    }
  }
}
