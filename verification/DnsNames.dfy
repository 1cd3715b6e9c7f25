/** Domain names on the wire (sections 3.1 and 4.1.4 of RFC 1035) as src/net/dns.c writes and reads
    them. Text is a sequence of bytes; labels are the parts between dots. */
module DnsNames {
  import opened Machine

  type text = seq<byte>

  const DOT: byte := 0x2E

  // ---------------------------------------------------------------- writing

  /** The labels of a name: one more than it has dots. */
  function Split(name: text): (ls: seq<text>)
    ensures ls != []
  {
    if name == [] then [[]]
    else
      var ls := Split(name[1..]);
      if name[0] == DOT then [[]] + ls else [[name[0]] + ls[0]] + ls[1..]
  }

  /** The labels with dots between them, behind what was read before. */
  function Join(out: text, ls: seq<text>): text
    decreases |ls|
  {
    if ls == [] then out else Join(Glued(out) + ls[0], ls[1..])
  }

  function Glued(out: text): text {
    if out == [] then [] else out + [DOT]
  }

  /** A number cut to a byte. */
  function LowByte(n: nat): byte {
    if n < 0x100 then n else LowByte(n - 0x100)
  }

  /** One label on the wire: its length cut to a byte, and its bytes. */
  function Label(l: text): text {
    [LowByte(|l|)] + l
  }

  function Labels(ls: seq<text>): text {
    if ls == [] then [] else Label(ls[0]) + Labels(ls[1..])
  }

  /** What dns_encode_name writes. */
  function Encode(name: text): text {
    Labels(Split(name)) + [0]
  }

  predicate NoDot(s: text) {
    forall i :: 0 <= i < |s| ==> s[i] != DOT
  }

  lemma {:induction false} SplitWhole(s: text)
    requires NoDot(s)
    ensures Split(s) == [s]
  {
    if s != [] {
      SplitWhole(s[1..]);
      assert [s[0]] + s[1..] == s;
    }
  }

  lemma {:induction false} SplitAtDot(s: text, k: nat)
    requires k < |s| && s[k] == DOT && NoDot(s[..k])
    ensures Split(s) == [s[..k]] + Split(s[k + 1..])
  {
    if k != 0 {
      assert s[0] == s[..k][0];
      assert s[1..][..k - 1] == s[..k][1..] && s[1..][k..] == s[k + 1..];
      SplitAtDot(s[1..], k - 1);
      assert [s[0]] + s[1..][..k - 1] == s[..k];
    }
  }

  /** Labels hold no dots. */
  lemma {:induction false} SplitLabels(name: text)
    ensures forall i :: 0 <= i < |Split(name)| ==> NoDot(Split(name)[i])
  {
    if name != [] {
      SplitLabels(name[1..]);
    }
  }

  /** The encoding of a name is two bytes longer than the name. */
  lemma {:induction false} EncodeLength(name: text)
    ensures |Encode(name)| == |name| + 2
  {
    LabelsLength(name);
  }

  lemma {:induction false} LabelsLength(name: text)
    ensures |Labels(Split(name))| == |name| + 1
  {
    if name == [] {
      assert Labels([[]]) == Label([]) + Labels([]);
    } else {
      var ls := Split(name[1..]);
      LabelsLength(name[1..]);
      if name[0] == DOT {
        assert ([[]] + ls)[1..] == ls;
      } else {
        assert ([[name[0]] + ls[0]] + ls[1..])[1..] == ls[1..];
      }
    }
  }

  // ---------------------------------------------------------------- reading

  /** n bytes of the buffer, one after the other. */
  function Bytes(buf: text, from: nat, n: nat): (r: text)
    requires from + n <= |buf|
    ensures |r| == n
  {
    if n == 0 then [] else Bytes(buf, from, n - 1) + [buf[from + n - 1]]
  }

  lemma {:induction false} BytesSlice(buf: text, from: nat, n: nat)
    requires from + n <= |buf|
    ensures Bytes(buf, from, n) == buf[from..from + n]
  {
    if n != 0 {
      BytesSlice(buf, from, n - 1);
    }
  }

  datatype Jump = NotYet | Back(to: nat)

  /** How a run of dns_decode_name ends: with the text, the offset it returns and whether it put a
      NUL behind the text; by reading behind the buffer; or not within the steps given. */
  datatype Outcome = Done(text: text, next: nat, ended: bool) | Overread | OutOfSteps

  function Resume(jump: Jump, pos: nat): nat {
    if jump.Back? then jump.to else pos
  }

  /** The low 14 bits of a pointer. */
  function Pointer(hi: byte, lo: byte): nat
    requires hi >= 0xC0
  {
    (hi - 0xC0) * 0x100 + lo
  }

  /** Where the loop goes on from pos, or -1 when this turn is the last. */
  function Turn(buf: text, pos: nat): int {
    if pos >= |buf| || buf[pos] == 0 then -1
    else if buf[pos] >= 0xC0 then if pos + 1 >= |buf| then -1 else Pointer(buf[pos], buf[pos + 1])
    else if pos + 1 + buf[pos] > |buf| then -1 else pos + 1 + buf[pos]
  }

  /** The outcome of the last turn. */
  function Ending(buf: text, pos: nat, out: text, jump: Jump): Outcome {
    if pos >= |buf| then Done(out, pos, true)
    else if buf[pos] == 0 then Done(out, Resume(jump, pos + 1), jump.NotYet?)
    else Overread
  }

  /** The text after a turn that goes on: a pointer adds nothing, a label its bytes. */
  function TextAfter(buf: text, pos: nat, out: text): text
    requires Turn(buf, pos) >= 0
  {
    if buf[pos] >= 0xC0 then out else Glued(out) + Bytes(buf, pos + 1, buf[pos])
  }

  /** The first pointer notes where the caller is to go on. */
  function JumpAfter(buf: text, pos: nat, jump: Jump): Jump
    requires Turn(buf, pos) >= 0
  {
    if buf[pos] >= 0xC0 then Back(Resume(jump, pos + 2)) else jump
  }

  /** The loop of dns_decode_name, at most `steps` turns of it. */
  function Decode(buf: text, pos: nat, out: text, jump: Jump, steps: nat): Outcome
    decreases steps
  {
    if steps == 0 then OutOfSteps
    else if Turn(buf, pos) < 0 then Ending(buf, pos, out, jump)
    else Decode(buf, Turn(buf, pos), TextAfter(buf, pos, out), JumpAfter(buf, pos, jump), steps - 1)
  }

  /** The outcome is r. The quantifier keeps Decode folded. */
  predicate Gives(buf: text, pos: nat, out: text, jump: Jump, steps: nat, r: Outcome) {
    forall n: nat | n == steps :: Decode(buf, pos, out, jump, n) == r
  }

  // Gives, one turn at a time.
  lemma {:induction false} GivenTurn(buf: text, pos: nat, out: text, jump: Jump, steps: nat, r: Outcome)
    requires 0 < steps && Turn(buf, pos) >= 0
    ensures Gives(buf, pos, out, jump, steps, r) <==>
            Gives(buf, Turn(buf, pos), TextAfter(buf, pos, out), JumpAfter(buf, pos, jump), steps - 1, r)
  {
    assert Decode(buf, pos, out, jump, steps) ==
           Decode(buf, Turn(buf, pos), TextAfter(buf, pos, out), JumpAfter(buf, pos, jump), steps - 1);
  }

  lemma {:induction false} GivenEnd(buf: text, pos: nat, out: text, jump: Jump, steps: nat, r: Outcome)
    requires 0 < steps ==> Turn(buf, pos) < 0
    ensures Gives(buf, pos, out, jump, steps, r) <==>
            r == if steps == 0 then OutOfSteps else Ending(buf, pos, out, jump)
  {
    assert Gives(buf, pos, out, jump, steps, r) <==> Decode(buf, pos, out, jump, steps) == r;
  }

  /** How long the text gets within `steps` turns, behind n bytes. */
  function LengthOf(buf: text, pos: nat, n: nat, steps: nat): (m: nat)
    ensures n <= m
    decreases steps
  {
    if steps == 0 || Turn(buf, pos) < 0 then n
    else LengthOf(buf, Turn(buf, pos), LengthAfter(buf, pos, n), steps - 1)
  }

  function LengthAfter(buf: text, pos: nat, n: nat): (m: nat)
    requires Turn(buf, pos) >= 0
    ensures n <= m
  {
    if buf[pos] >= 0xC0 then n else (if n == 0 then 0 else n + 1) + buf[pos]
  }

  lemma {:induction false} AddedLength(buf: text, pos: nat, out: text)
    requires Turn(buf, pos) >= 0
    ensures LengthAfter(buf, pos, |out|) == |TextAfter(buf, pos, out)|
  {
  }

  /** A run that ends returns a text of that length. */
  lemma {:induction false} DoneLength(buf: text, pos: nat, out: text, jump: Jump, steps: nat)
    requires Decode(buf, pos, out, jump, steps).Done?
    ensures |Decode(buf, pos, out, jump, steps).text| == LengthOf(buf, pos, |out|, steps)
  {
    GivenLength(buf, pos, out, jump, steps, Decode(buf, pos, out, jump, steps));
  }

  lemma {:induction false} GivenLength(buf: text, pos: nat, out: text, jump: Jump, steps: nat, r: Outcome)
    requires Gives(buf, pos, out, jump, steps, r) && r.Done?
    ensures |r.text| == LengthOf(buf, pos, |out|, steps)
    decreases steps
  {
    if 0 < steps && Turn(buf, pos) >= 0 {
      AddedLength(buf, pos, out);
      GivenTurn(buf, pos, out, jump, steps, r);
      GivenLength(buf, Turn(buf, pos), TextAfter(buf, pos, out), JumpAfter(buf, pos, jump), steps - 1, r);
    } else {
      GivenEnd(buf, pos, out, jump, steps, r);
    }
  }

  // ---------------------------------------------------------------- meaning

  /** The name at an offset, as the RFC defines it: labels ended by 0, or by a pointer to the place
      where they go on; `hops` pointers are followed. */
  predicate Spells(buf: text, pos: nat, ls: seq<text>, hops: nat)
    decreases hops, |ls|
  {
    pos < |buf| &&
    if buf[pos] == 0 then ls == [] && hops == 0
    else if buf[pos] >= 0xC0 then
      pos + 1 < |buf| && hops > 0 && Spells(buf, Pointer(buf[pos], buf[pos + 1]), ls, hops - 1)
    else
      && pos + 1 + buf[pos] <= |buf| && ls != [] && ls[0] == Bytes(buf, pos + 1, buf[pos])
      && Spells(buf, pos + 1 + buf[pos], ls[1..], hops)
  }

  /** The offset just behind the name at pos, its own pointer or final 0 included. */
  function Behind(buf: text, pos: nat): nat
    decreases |buf| - pos
  {
    if pos >= |buf| || buf[pos] == 0 then pos + 1
    else if buf[pos] >= 0xC0 then pos + 2
    else Behind(buf, pos + 1 + buf[pos])
  }

  /** Decoding reads the name that stands at the offset and returns the offset just behind it; the
      text is left without a NUL exactly when a pointer was followed. */
  lemma {:induction false} DecodeReads(buf: text, pos: nat, ls: seq<text>, hops: nat, out: text, jump: Jump, steps: nat)
    requires Spells(buf, pos, ls, hops) && steps > |ls| + hops
    ensures Decode(buf, pos, out, jump, steps)
      == Done(Join(out, ls), Resume(jump, Behind(buf, pos)), jump.NotYet? && hops == 0)
    decreases hops, |ls|
  {
    if buf[pos] != 0 {
      var ls', hops' := if buf[pos] >= 0xC0 then ls else ls[1..], if buf[pos] >= 0xC0 then hops - 1 else hops;
      DecodeReads(buf, Turn(buf, pos), ls', hops', TextAfter(buf, pos, out), JumpAfter(buf, pos, jump), steps - 1);
    }
  }

  /** A finished run does not depend on the number of steps it was given. */
  lemma {:induction false} MoreSteps(buf: text, pos: nat, out: text, jump: Jump, steps: nat, more: nat)
    requires steps <= more && Decode(buf, pos, out, jump, steps) != OutOfSteps
    ensures Decode(buf, pos, out, jump, more) == Decode(buf, pos, out, jump, steps)
  {
    MoreGiven(buf, pos, out, jump, steps, more, Decode(buf, pos, out, jump, steps));
  }

  lemma {:induction false} MoreGiven(buf: text, pos: nat, out: text, jump: Jump, steps: nat, more: nat, r: Outcome)
    requires steps <= more && Gives(buf, pos, out, jump, steps, r) && r != OutOfSteps
    ensures Gives(buf, pos, out, jump, more, r)
    decreases steps
  {
    if 0 < steps && Turn(buf, pos) >= 0 {
      GivenTurn(buf, pos, out, jump, steps, r);
      GivenTurn(buf, pos, out, jump, more, r);
      MoreGiven(buf, Turn(buf, pos), TextAfter(buf, pos, out), JumpAfter(buf, pos, jump), steps - 1, more - 1, r);
    } else {
      GivenEnd(buf, pos, out, jump, steps, r);
      GivenEnd(buf, pos, out, jump, more, r);
    }
  }

  // ---------------------------------------------------------------- round trip

  predicate At(buf: text, pos: nat, s: text) {
    pos + |s| <= |buf| && forall i :: 0 <= i < |s| ==> s[i] == buf[pos + i]
  }

  /** Labels the decoder takes for what they are: not empty, and short of the pointer mark. */
  predicate Readable(l: text) {
    1 <= |l| < 0xC0
  }

  predicate AllReadable(ls: seq<text>) {
    forall i :: 0 <= i < |ls| ==> Readable(ls[i])
  }

  lemma {:induction false} AtParts(buf: text, pos: nat, s: text, t: text)
    requires At(buf, pos, s + t)
    ensures At(buf, pos, s) && At(buf, pos + |s|, t)
  {
    forall i | 0 <= i < |s| ensures s[i] == buf[pos + i] {
      assert (s + t)[i] == s[i];
    }
    forall i | 0 <= i < |t| ensures t[i] == buf[pos + |s| + i] {
      assert (s + t)[|s| + i] == t[i];
    }
  }

  lemma {:induction false} LabelAt(buf: text, pos: nat, l: text)
    requires At(buf, pos, Label(l))
    ensures buf[pos] == LowByte(|l|) && Bytes(buf, pos + 1, |l|) == l
  {
    assert Label(l)[0] == LowByte(|l|);
    forall i | 0 <= i < |l| ensures l[i] == buf[pos + 1 + i] {
      assert Label(l)[1 + i] == l[i];
    }
    BytesSlice(buf, pos + 1, |l|);
  }

  /** The decoder finds the labels ls one after another from pos up to end. */
  predicate Lists(buf: text, pos: nat, ls: seq<text>, end: nat)
    decreases |ls|
  {
    if ls == [] then pos == end
    else
      && pos < |buf| && 0 < buf[pos] < 0xC0 && pos + 1 + buf[pos] <= |buf|
      && ls[0] == Bytes(buf, pos + 1, buf[pos]) && Lists(buf, pos + 1 + buf[pos], ls[1..], end)
  }

  /** It finds readable labels where they were written. */
  lemma {:induction false} ListsWritten(buf: text, pos: nat, ls: seq<text>, end: nat)
    requires AllReadable(ls) && At(buf, pos, Labels(ls)) && end == pos + |Labels(ls)|
    ensures Lists(buf, pos, ls, end)
    decreases |ls|
  {
    if ls != [] {
      AtParts(buf, pos, Label(ls[0]), Labels(ls[1..]));
      LabelAt(buf, pos, ls[0]);
      ListsWritten(buf, pos + 1 + |ls[0]|, ls[1..], end);
    }
  }

  /** Labels in front of a name are part of it. */
  lemma {:induction false} LabelsSpell(buf: text, pos: nat, ls: seq<text>, end: nat, rest: seq<text>, hops: nat)
    requires Lists(buf, pos, ls, end) && Spells(buf, end, rest, hops)
    ensures Spells(buf, pos, ls + rest, hops) && Behind(buf, pos) == Behind(buf, end)
    decreases |ls|
  {
    if ls == [] {
      assert ls + rest == rest;
    } else {
      LabelsSpell(buf, pos + 1 + buf[pos], ls[1..], end, rest, hops);
      assert (ls + rest)[1..] == ls[1..] + rest;
    }
  }

  /** Every part with a dot in front but the first. */
  function Dotted(ls: seq<text>): text
    requires ls != []
  {
    if |ls| == 1 then ls[0] else ls[0] + ([DOT] + Dotted(ls[1..]))
  }

  lemma {:induction false} SplitDotted(name: text)
    ensures Dotted(Split(name)) == name
  {
    if name != [] {
      var ls := Split(name[1..]);
      SplitDotted(name[1..]);
      if name[0] == DOT {
        assert ([[]] + ls)[1..] == ls;
      } else {
        var first := [name[0]] + ls[0];
        assert ([first] + ls[1..])[1..] == ls[1..];
      }
    }
  }

  lemma {:induction false} JoinDotted(out: text, ls: seq<text>)
    requires ls != [] && forall i :: 0 <= i < |ls| ==> ls[i] != []
    ensures Join(out, ls) == Glued(out) + Dotted(ls)
    decreases |ls|
  {
    var out' := Glued(out) + ls[0];
    if |ls| == 1 {
      assert Join(out', ls[1..]) == out';
    } else {
      JoinDotted(out', ls[1..]);
      assert Glued(out) + (ls[0] + ([DOT] + Dotted(ls[1..]))) == out' + [DOT] + Dotted(ls[1..]);
    }
  }

  /** What was written is a name the RFC's way, without pointers. */
  lemma {:induction false} NameSpells(buf: text, pos: nat, name: text)
    requires At(buf, pos, Encode(name)) && AllReadable(Split(name))
    ensures Spells(buf, pos, Split(name), 0) && Behind(buf, pos) == pos + |Encode(name)|
  {
    var ms := Split(name);
    var end := pos + |Labels(ms)|;
    AtParts(buf, pos, Labels(ms), [0]);
    assert [0][0] == buf[end];
    ListsWritten(buf, pos, ms, end);
    LabelsSpell(buf, pos, ms, end, [], 0);
    assert ms + [] == ms;
  }

  lemma {:induction false} RoundTripReadable(buf: text, pos: nat, name: text, steps: nat)
    requires At(buf, pos, Encode(name)) && AllReadable(Split(name)) && steps >= |name| + 2
    ensures Decode(buf, pos, [], NotYet, steps) == Done(name, pos + |Encode(name)|, true)
  {
    LabelCount(name);
    NameSpells(buf, pos, name);
    DecodeReads(buf, pos, Split(name), 0, [], NotYet, steps);
    JoinDotted([], Split(name));
    SplitDotted(name);
  }

  lemma {:induction false} LabelCount(name: text)
    ensures |Split(name)| <= |name| + 1
  {
    if name != [] {
      LabelCount(name[1..]);
    }
  }

  // ---- what the decoder makes of other labels

  /** The text t goes on behind out with n characters from one label. */
  predicate HasChunk(out: text, t: text, n: nat) {
    var start := |Glued(out)|;
    start + n <= |t| && t[..start] == Glued(out) && (|t| == start + n || t[start + n] == DOT)
  }

  predicate Continues(out: text, t: text) {
    t == out || exists n :: 1 <= n < 0xC0 && HasChunk(out, t, n)
  }

  /** Whatever it reads, the decoder puts a dot at the latest after 191 characters. */
  lemma {:induction false} DecodeContinues(buf: text, pos: nat, out: text, jump: Jump, steps: nat)
    requires Decode(buf, pos, out, jump, steps).Done?
    ensures Continues(out, Decode(buf, pos, out, jump, steps).text)
    decreases steps
  {
    if Turn(buf, pos) >= 0 {
      DecodeContinues(buf, Turn(buf, pos), TextAfter(buf, pos, out), JumpAfter(buf, pos, jump), steps - 1);
      if buf[pos] < 0xC0 {
        ChunkAdded(out, TextAfter(buf, pos, out), Decode(buf, pos, out, jump, steps).text, buf[pos]);
      }
    }
  }

  lemma {:induction false} ChunkAdded(out: text, out': text, t: text, n: nat)
    requires 1 <= n < 0xC0 && |out'| == |Glued(out)| + n && out'[..|Glued(out)|] == Glued(out) && Continues(out', t)
    ensures Continues(out, t)
  {
    if t == out' {
      assert HasChunk(out, t, n);
    } else {
      var m :| 1 <= m < 0xC0 && HasChunk(out', t, m);
      assert t[..|out'| + 1] == out' + [DOT];
      assert t[|out'|] == t[..|out'| + 1][|out'|];
      assert t[..|Glued(out)|] == t[..|out'| + 1][..|Glued(out)|];
      assert HasChunk(out, t, n);
    }
  }

  /** The text t goes on behind out with the given label. */
  predicate GoesOn(out: text, t: text, word: text) {
    |t| >= |Glued(out)| + |word| && t[|Glued(out)|..|Glued(out)| + |word|] == word
  }

  // A text whose next label is longer than 191 characters is not what the decoder gives.
  lemma {:induction false} LongLabelLost(out: text, word: text, t: text)
    requires |word| >= 0xC0 && NoDot(word) && Continues(out, t)
    ensures !GoesOn(out, t, word)
  {
    if t != out {
      var n :| 1 <= n < 0xC0 && HasChunk(out, t, n);
      if |t| >= |Glued(out)| + |word| {
        assert t[|Glued(out)|..|Glued(out)| + |word|][n] == DOT;
        assert word[n] != DOT;
      }
    }
  }

  /** A run that does not have the outcome r. The quantifier keeps Decode folded where nobody names it. */
  predicate Misses(buf: text, pos: nat, out: text, steps: nat, r: Outcome) {
    forall jump | jump == NotYet :: Decode(buf, pos, out, jump, steps) != r
  }

  // A first label that is empty or long: the run ends elsewhere or with another text.
  lemma {:induction false} FirstLost(buf: text, pos: nat, out: text, l: text, t: text, end: nat, steps: nat)
    requires At(buf, pos, Label(l)) && !Readable(l) && NoDot(l) && steps > 0 && end > pos + 1 && GoesOn(out, t, l)
    ensures Misses(buf, pos, out, steps, Done(t, end, true))
  {
    LabelAt(buf, pos, l);
    var r := Decode(buf, pos, out, NotYet, steps);
    if l == [] {
      assert Turn(buf, pos) < 0;
    } else if r.Done? {
      DecodeContinues(buf, pos, out, NotYet, steps);
      LongLabelLost(out, l, r.text);
    }
  }

  lemma {:induction false} PassLabel(buf: text, pos: nat, l: text, out: text, steps: nat, r: Outcome)
    requires Readable(l) && At(buf, pos, Label(l)) && 0 < steps
    requires Misses(buf, pos + 1 + |l|, Glued(out) + l, steps - 1, r)
    ensures Misses(buf, pos, out, steps, r)
  {
    LabelAt(buf, pos, l);
    MissedBefore(buf, pos, out, steps, r);
  }

  lemma {:induction false} MissedBefore(buf: text, pos: nat, out: text, steps: nat, r: Outcome)
    requires 0 < steps && Turn(buf, pos) >= 0 && buf[pos] < 0xC0
    requires Misses(buf, Turn(buf, pos), TextAfter(buf, pos, out), steps - 1, r)
    ensures Misses(buf, pos, out, steps, r)
  {
    assert Decode(buf, Turn(buf, pos), TextAfter(buf, pos, out), NotYet, steps - 1) != r;
  }

  /** The text t goes on behind out with these labels, up to the first that is not readable. */
  predicate LeadingThrough(out: text, ls: seq<text>, t: text)
    decreases |ls|
  {
    ls == [] || (GoesOn(out, t, ls[0]) && (Readable(ls[0]) ==> LeadingThrough(Glued(out) + ls[0], ls[1..], t)))
  }

  lemma {:induction false} DottedThrough(out: text, ls: seq<text>, t: text)
    requires ls != [] && t == Glued(out) + Dotted(ls)
    ensures LeadingThrough(out, ls, t)
    decreases |ls|
  {
    if |ls| > 1 && Readable(ls[0]) {
      assert t == Glued(Glued(out) + ls[0]) + Dotted(ls[1..]);
      DottedThrough(Glued(out) + ls[0], ls[1..], t);
    }
  }

  /** Labels without dots stand at pos, some of them not readable, and the text t begins like theirs. */
  ghost predicate StuckAt(buf: text, pos: nat, out: text, ls: seq<text>, t: text, end: nat) {
    && !AllReadable(ls) && (forall i :: 0 <= i < |ls| ==> NoDot(ls[i])) && At(buf, pos, Labels(ls))
    && end == pos + |Labels(ls)| + 1 && LeadingThrough(out, ls, t)
  }

  // The same, folded.
  ghost predicate Stuck(buf: text, pos: nat, out: text, ls: seq<text>, t: text, end: nat) {
    ls != [] && forall n: nat | n == pos :: StuckAt(buf, n, out, ls, t, end)
  }

  // What holds of the labels behind a readable first one.
  lemma {:induction false} StuckBehind(buf: text, pos: nat, out: text, ls: seq<text>, t: text, end: nat)
    requires Stuck(buf, pos, out, ls, t, end) && Readable(ls[0])
    ensures |ls| > 1 && At(buf, pos, Label(ls[0]))
    ensures Stuck(buf, pos + 1 + |ls[0]|, Glued(out) + ls[0], ls[1..], t, end)
  {
    assert StuckAt(buf, pos, out, ls, t, end);
    AtParts(buf, pos, Label(ls[0]), Labels(ls[1..]));
    var k :| 0 <= k < |ls| && !Readable(ls[k]);
    assert !Readable(ls[1..][k - 1]);
  }

  lemma {:induction false} StuckFirst(buf: text, pos: nat, out: text, ls: seq<text>, t: text, end: nat, steps: nat)
    requires Stuck(buf, pos, out, ls, t, end) && !Readable(ls[0]) && steps > 0
    ensures Misses(buf, pos, out, steps, Done(t, end, true))
  {
    assert StuckAt(buf, pos, out, ls, t, end);
    AtParts(buf, pos, Label(ls[0]), Labels(ls[1..]));
    FirstLost(buf, pos, out, ls[0], t, end, steps);
  }

  lemma {:induction false} UnreadableLost(buf: text, pos: nat, out: text, ls: seq<text>, t: text, end: nat, steps: nat)
    requires Stuck(buf, pos, out, ls, t, end) && steps > |ls|
    ensures Misses(buf, pos, out, steps, Done(t, end, true))
    decreases |ls|
  {
    if Readable(ls[0]) {
      StuckBehind(buf, pos, out, ls, t, end);
      UnreadableLost(buf, pos + 1 + |ls[0]|, Glued(out) + ls[0], ls[1..], t, end, steps - 1);
      PassLabel(buf, pos, ls[0], out, steps, Done(t, end, true));
    } else {
      StuckFirst(buf, pos, out, ls, t, end, steps);
    }
  }

  /** Decoding an encoded name, anywhere in a buffer, gives the name back with the offset just behind
      it exactly when every label has from 1 to 191 bytes; the RFC allows 63. */
  lemma {:induction false} RoundTrip(buf: text, pos: nat, name: text, steps: nat)
    requires At(buf, pos, Encode(name)) && steps >= |name| + 2
    ensures Decode(buf, pos, [], NotYet, steps) == Done(name, pos + |Encode(name)|, true) <==> AllReadable(Split(name))
  {
    if AllReadable(Split(name)) {
      RoundTripReadable(buf, pos, name, steps);
    } else {
      LabelCount(name);
      AtParts(buf, pos, Labels(Split(name)), [0]);
      SplitLabels(name);
      SplitDotted(name);
      assert name == Glued([]) + Dotted(Split(name));
      DottedThrough([], Split(name), name);
      UnreadableLost(buf, pos, [], Split(name), name, pos + |Encode(name)|, steps);
    }
  }

  /** Labels followed by one pointer to a name: the joined text, without a NUL, and the offset just
      behind the pointer. */
  lemma {:induction false} OnePointer(buf: text, pos: nat, ls: seq<text>, target: nat, name: text, steps: nat)
    requires AllReadable(ls) && target < 0x4000 && At(buf, pos, Labels(ls) + PointerTo(target))
    requires At(buf, target, Encode(name)) && AllReadable(Split(name)) && steps >= |ls| + |name| + 3
    ensures Decode(buf, pos, [], NotYet, steps) == Done(Join([], ls + Split(name)), pos + |Labels(ls)| + 2, false)
  {
    LabelCount(name);
    NameSpells(buf, target, name);
    PointedSpells(buf, pos, ls, target, Split(name));
    DecodeReads(buf, pos, ls + Split(name), 1, [], NotYet, steps);
  }

  lemma {:induction false} PointedSpells(buf: text, pos: nat, ls: seq<text>, target: nat, ms: seq<text>)
    requires AllReadable(ls) && target < 0x4000
    requires At(buf, pos, Labels(ls) + PointerTo(target)) && Spells(buf, target, ms, 0)
    ensures Spells(buf, pos, ls + ms, 1) && Behind(buf, pos) == pos + |Labels(ls)| + 2
  {
    var at := pos + |Labels(ls)|;
    AtParts(buf, pos, Labels(ls), PointerTo(target));
    PointerSpells(buf, at, target, ms);
    ListsWritten(buf, pos, ls, at);
    LabelsSpell(buf, pos, ls, at, ms, 1);
  }

  function PointerTo(target: nat): text
    requires target < 0x4000
  {
    [0xC0 + target / 0x100, target % 0x100]
  }

  lemma {:induction false} PointerSpells(buf: text, at: nat, target: nat, ms: seq<text>)
    requires target < 0x4000 && At(buf, at, PointerTo(target)) && Spells(buf, target, ms, 0)
    ensures Spells(buf, at, ms, 1) && Behind(buf, at) == at + 2
  {
    assert PointerTo(target)[0] == buf[at] && PointerTo(target)[1] == buf[at + 1];
    assert Pointer(buf[at], buf[at + 1]) == target;
  }

  // ---------------------------------------------------------------- termination

  function Visit(buf: text, pos: nat, n: nat): int
    decreases n
  {
    if n == 0 then pos else if Turn(buf, pos) < 0 then -1 else Visit(buf, Turn(buf, pos), n - 1)
  }

  lemma {:induction false} OutOfStepsIs(buf: text, pos: nat, out: text, jump: Jump, steps: nat)
    ensures Decode(buf, pos, out, jump, steps) == OutOfSteps <==> Visit(buf, pos, steps) >= 0
  {
    OutOfStepsGiven(buf, pos, out, jump, steps);
    assert Gives(buf, pos, out, jump, steps, OutOfSteps) <==> Decode(buf, pos, out, jump, steps) == OutOfSteps;
    assert Survives(buf, pos, steps) <==> Visit(buf, pos, steps) >= 0;
  }

  /** n turns can be made from pos. The quantifier keeps Visit folded. */
  predicate Survives(buf: text, pos: nat, n: nat) {
    forall k: nat | k == n :: Visit(buf, pos, k) >= 0
  }

  lemma {:induction false} SurvivesTurn(buf: text, pos: nat, n: nat)
    requires 0 < n && Turn(buf, pos) >= 0
    ensures Survives(buf, pos, n) <==> Survives(buf, Turn(buf, pos), n - 1)
  {
    assert Visit(buf, pos, n) == Visit(buf, Turn(buf, pos), n - 1);
  }

  lemma {:induction false} SurvivesEnd(buf: text, pos: nat, n: nat)
    requires 0 < n ==> Turn(buf, pos) < 0
    ensures Survives(buf, pos, n) <==> n == 0
  {
    assert Survives(buf, pos, n) <==> Visit(buf, pos, n) >= 0;
  }

  lemma {:induction false} OutOfStepsGiven(buf: text, pos: nat, out: text, jump: Jump, steps: nat)
    ensures Gives(buf, pos, out, jump, steps, OutOfSteps) <==> Survives(buf, pos, steps)
    decreases steps
  {
    if 0 < steps && Turn(buf, pos) >= 0 {
      GivenTurn(buf, pos, out, jump, steps, OutOfSteps);
      SurvivesTurn(buf, pos, steps);
      OutOfStepsGiven(buf, Turn(buf, pos), TextAfter(buf, pos, out), JumpAfter(buf, pos, jump), steps - 1);
    } else {
      GivenEnd(buf, pos, out, jump, steps, OutOfSteps);
      SurvivesEnd(buf, pos, steps);
    }
  }

  lemma {:induction false} VisitAdd(buf: text, pos: nat, a: nat, b: nat)
    ensures Visit(buf, pos, a + b) == if Visit(buf, pos, a) < 0 then -1 else Visit(buf, Visit(buf, pos, a), b)
    decreases a
  {
    if a != 0 && Turn(buf, pos) >= 0 {
      VisitAdd(buf, Turn(buf, pos), a - 1, b);
    }
  }

  // Of n + 1 numbers below n two are equal.
  lemma {:induction false} Pigeonhole(f: seq<nat>, n: nat) returns (i: nat, j: nat)
    requires 0 < n && |f| == n + 1 && forall k :: 0 <= k < |f| ==> f[k] < n
    ensures i < j < |f| && f[i] == f[j]
    decreases n
  {
    if n == 1 {
      i, j := 0, 1;
    } else if k :| 0 <= k < n && f[k] == f[n] {
      i, j := k, n;
    } else {
      var g := seq(n, k requires 0 <= k < n => if f[k] == n - 1 then f[n] else f[k]);
      i, j := Pigeonhole(g, n - 1);
    }
  }

  lemma {:induction false} Recurs(buf: text, pos: nat, i: nat, j: nat, m: nat)
    requires i < j && Visit(buf, pos, j) >= 0 && Visit(buf, pos, i) == Visit(buf, pos, j)
    ensures Visit(buf, pos, m) >= 0
    decreases m
  {
    if m < j {
      VisitAdd(buf, pos, m, j - m);
    } else {
      Recurs(buf, pos, i, j, m - (j - i));
      VisitAdd(buf, pos, i, m - j);
      VisitAdd(buf, pos, j, m - j);
    }
  }

  /** Among the first |buf| + 1 offsets the loop visits, one comes twice. */
  predicate SeenTwice(buf: text, pos: nat) {
    exists i, j :: 0 <= i < j <= |buf| && SameVisit(buf, pos, i, j)
  }

  predicate SameVisit(buf: text, pos: nat, i: nat, j: nat) {
    Visit(buf, pos, i) == Visit(buf, pos, j) >= 0
  }

  /** Decoding never ends exactly when it comes back to an offset it has visited; otherwise it ends
      within one turn more than the buffer has bytes. */
  lemma {:induction false} HangsIffSeenTwice(buf: text, pos: nat, out: text, jump: Jump, steps: nat)
    ensures Decode(buf, pos, out, jump, |buf| + 1) == OutOfSteps <==> SeenTwice(buf, pos)
    ensures SeenTwice(buf, pos) ==> Decode(buf, pos, out, jump, steps) == OutOfSteps
  {
    if Decode(buf, pos, out, jump, |buf| + 1) == OutOfSteps {
      var i, j := RevisitIn(buf, pos, out, jump);
      assert SameVisit(buf, pos, i, j);
    }
    if SeenTwice(buf, pos) {
      var i, j :| 0 <= i < j <= |buf| && SameVisit(buf, pos, i, j);
      Recurs(buf, pos, i, j, steps);
      Recurs(buf, pos, i, j, |buf| + 1);
      OutOfStepsIs(buf, pos, out, jump, steps);
      OutOfStepsIs(buf, pos, out, jump, |buf| + 1);
    }
  }

  // A run that goes on for |buf| + 1 turns stays in the buffer, so an offset comes twice.
  lemma {:induction false} RevisitIn(buf: text, pos: nat, out: text, jump: Jump) returns (i: nat, j: nat)
    requires Decode(buf, pos, out, jump, |buf| + 1) == OutOfSteps
    ensures i < j <= |buf| && Visit(buf, pos, i) == Visit(buf, pos, j) >= 0
  {
    var n := |buf| + 1;
    OutOfStepsIs(buf, pos, out, jump, n);
    forall k | 0 <= k < n ensures 0 <= Visit(buf, pos, k) < |buf| {
      VisitAdd(buf, pos, k, n - k);
    }
    var f := seq(n, k requires 0 <= k < n => Visit(buf, pos, k));
    i, j := Pigeonhole(f, |buf|);
  }

  /** A check a caller can make: each pointer on the way from pos leads below the start of the run of
      labels it ends, as the prior occurrences of section 4.1.4 do. */
  predicate PointsBack(buf: text, start: nat, pos: nat)
    requires start <= pos
    decreases start, |buf| - pos
  {
    pos >= |buf| || buf[pos] == 0 ||
    if buf[pos] >= 0xC0 then
      pos + 1 >= |buf| ||
      (var to := Pointer(buf[pos], buf[pos + 1]); to < start && PointsBack(buf, to, to))
    else pos + 1 + buf[pos] > |buf| || PointsBack(buf, start, pos + 1 + buf[pos])
  }

  /** And then decoding ends. */
  lemma {:induction false} BackwardEnds(buf: text, pos: nat, out: text, jump: Jump)
    requires PointsBack(buf, pos, pos)
    ensures Decode(buf, pos, out, jump, |buf| + 1) != OutOfSteps && !SeenTwice(buf, pos)
  {
    var steps := LastTurn(buf, pos, pos, out, jump);
    HangsIffSeenTwice(buf, pos, out, jump, steps);
  }

  lemma {:induction false} LastTurn(buf: text, start: nat, pos: nat, out: text, jump: Jump) returns (steps: nat)
    requires start <= pos && PointsBack(buf, start, pos)
    ensures Decode(buf, pos, out, jump, steps) != OutOfSteps
    decreases start, |buf| - pos
  {
    if Turn(buf, pos) < 0 {
      steps := 1;
    } else {
      var to := Turn(buf, pos);
      var start' := if buf[pos] >= 0xC0 then to else start;
      var n := LastTurn(buf, start', to, TextAfter(buf, pos, out), JumpAfter(buf, pos, jump));
      steps := n + 1;
    }
  }

  /** A pointer to itself never ends. */
  lemma {:induction false} SelfPointerHangs(buf: text, pos: nat, out: text, jump: Jump, steps: nat)
    requires pos + 1 < |buf| && buf[pos] >= 0xC0 && Pointer(buf[pos], buf[pos + 1]) == pos
    ensures Decode(buf, pos, out, jump, steps) == OutOfSteps
  {
    Recurs(buf, pos, 0, 1, steps);
    OutOfStepsIs(buf, pos, out, jump, steps);
  }
}
