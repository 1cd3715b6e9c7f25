/** The kernel pipe of src/sys/pipe.c as a state machine whose steps are single iterations of the
    reader's and the writer's loop, and closes. */
module PipeQueue {
  import opened Machine
  import opened RingIndex

  /** One pipe, with the bytes ever written to and read from it. */
  datatype Pipe = Pipe(buffer: seq<byte>, readPos: nat, writePos: nat, count: nat, readers: int, writers: int,
                       inUse: bool, written: seq<byte>, read: seq<byte>)

  /** What one iteration of a read or write loop does. */
  datatype Outcome = Refused | Moved(b: byte) | EndOfFile | Broken | Waits

  datatype Event = ReadEv | WriteEv(b: byte) | CloseEv

  /** pipe_create on a free entry */
  const CREATED: Pipe := Pipe(seq(4096, _ => 0), 0, 0, 0, 1, 1, true, [], [])

  predicate Shaped(p: Pipe) {
    |p.buffer| == 4096 && p.readPos < 4096 && p.writePos < 4096
  }

  function ReadStep(p: Pipe): (r: (Pipe, Outcome))
    requires Shaped(p)
    ensures Shaped(r.0)
  {
    if !p.inUse then (p, Refused)
    else if p.count == 0 then (p, if p.writers == 0 then EndOfFile else Waits)
    else
      var b := p.buffer[p.readPos];
      (p.(readPos := (p.readPos + 1) % 4096, count := p.count - 1, read := p.read + [b]), Moved(b))
  }

  function WriteStep(p: Pipe, b: byte): (Pipe, Outcome)
    requires Shaped(p)
  {
    if !p.inUse then (p, Refused)
    else if p.count >= 4096 then (p, if p.readers == 0 then Broken else Waits)
    else
      (p.(buffer := p.buffer[p.writePos := b], writePos := (p.writePos + 1) % 4096, count := p.count + 1,
          written := p.written + [b]), Moved(b))
  }

  /** pipe_close gives up a writer whoever calls it; the readers are never counted down. */
  function Close(p: Pipe): Pipe {
    if !p.inUse then p
    else p.(writers := p.writers - 1, inUse := !(p.writers - 1 <= 0 && p.readers <= 0))
  }

  function Step(p: Pipe, ev: Event): (p': Pipe)
    requires Shaped(p)
    ensures Shaped(p')
  {
    match ev
    case ReadEv => ReadStep(p).0
    case WriteEv(b) => WriteStep(p, b).0
    case CloseEv => Close(p)
  }

  /** The bytes written but not read. */
  function Unread(p: Pipe): seq<byte>
    requires |p.read| <= |p.written|
  {
    p.written[|p.read|..]
  }

  ghost predicate Inv(p: Pipe) {
    && Shaped(p) && p.inUse && p.readers == 1
    && p.read <= p.written && |p.written| == |p.read| + p.count && p.count <= 4096
    && p.readPos == |p.read| % 4096 && p.writePos == |p.written| % 4096
    && (forall i :: |p.read| <= i < |p.written| ==> Holds(p, i))
  }

  ghost predicate Holds(p: Pipe, i: nat)
    requires |p.buffer| == 4096 && i < |p.written|
  {
    p.buffer[i % 4096] == p.written[i]
  }

  lemma ReadKeepsInv(p: Pipe)
    requires Inv(p)
    ensures Inv(ReadStep(p).0)
    ensures 0 < p.count ==> ReadStep(p).1 == Moved(Unread(p)[0]) && Unread(ReadStep(p).0) == Unread(p)[1..]
  {
    NextMod(|p.read|, 4096);
    var p' := ReadStep(p).0;
    if 0 < p.count {
      assert Holds(p, |p.read|);
      forall i | |p'.read| <= i < |p'.written|
        ensures Holds(p', i)
      {
        assert Holds(p, i);
      }
    }
  }

  lemma WriteKeepsInv(p: Pipe, b: byte)
    requires Inv(p)
    ensures Inv(WriteStep(p, b).0)
    ensures p.count < 4096 ==> Unread(WriteStep(p, b).0) == Unread(p) + [b]
  {
    NextMod(|p.written|, 4096);
    var p' := WriteStep(p, b).0;
    if p.count < 4096 {
      forall i | |p'.read| <= i < |p'.written|
        ensures Holds(p', i)
      {
        if i < |p.written| {
          assert Holds(p, i);
          CellsApart(i, |p.written|, 4096);
        }
      }
    }
  }

  lemma CloseKeepsInv(p: Pipe)
    requires Inv(p)
    ensures Inv(Close(p))
  {
    forall i | |p.read| <= i < |p.written|
      ensures Holds(Close(p), i)
    {
      assert Holds(p, i);
    }
  }

  lemma StepKeepsInv(p: Pipe, ev: Event)
    requires Inv(p)
    ensures Inv(Step(p, ev))
  {
    match ev
    case ReadEv => ReadKeepsInv(p);
    case WriteEv(b) => WriteKeepsInv(p, b);
    case CloseEv => CloseKeepsInv(p);
  }

  function Run(p: Pipe, evs: seq<Event>): (p': Pipe)
    requires Shaped(p)
    ensures Shaped(p')
    decreases |evs|
  {
    if evs == [] then p else Run(Step(p, evs[0]), evs[1..])
  }

  function Closes(evs: seq<Event>): nat {
    if evs == [] then 0 else (if evs[0].CloseEv? then 1 else 0) + Closes(evs[1..])
  }

  lemma {:induction false} RunKeepsInv(p: Pipe, evs: seq<Event>)
    requires Inv(p)
    ensures Inv(Run(p, evs)) && Run(p, evs).writers == p.writers - Closes(evs)
    decreases |evs|
  {
    if evs != [] {
      StepKeepsInv(p, evs[0]);
      RunKeepsInv(Step(p, evs[0]), evs[1..]);
    }
  }

  /** Over every interleaving of reads, writes and closes, the bytes written are the bytes read
      followed by the `count` buffered ones, in order. */
  lemma {:induction false} Conserved(evs: seq<Event>)
    ensures var p := Run(CREATED, evs);
      && |p.read| <= |p.written|
      && p.written == p.read + Unread(p) && |Unread(p)| == p.count <= 4096
      && p.writePos == (p.readPos + p.count) % 4096
  {
    RunKeepsInv(CREATED, evs);
    var p := Run(CREATED, evs);
    var a, c := |p.read|, p.count;
    assert (a % 4096 + c) % 4096 == (a + c) % 4096;
  }

  // ---------------------------------------------------------------- end of file

  /** n reads in a row: the bytes they yield, and whether the last one met the end of file. */
  function Drain(p: Pipe, n: nat): (r: (seq<byte>, Pipe))
    requires Shaped(p)
    ensures Shaped(r.1)
    decreases n
  {
    if n == 0 then ([], p) else
    var (p', o) := ReadStep(p);
    var (rest, q) := Drain(p', n - 1);
    (if o.Moved? then [o.b] + rest else rest, q)
  }

  lemma HeadAndRest(u: seq<byte>, n: nat)
    requires 0 < n <= |u|
    ensures u[..n] == [u[0]] + u[1..][..n - 1] && u[n..] == u[1..][n - 1..]
  {
  }

  lemma {:induction false} DrainYields(p: Pipe, n: nat)
    requires Inv(p) && n <= p.count
    ensures var (bytes, q) := Drain(p, n);
      && bytes == Unread(p)[..n]
      && Inv(q) && Unread(q) == Unread(p)[n..] && q.writers == p.writers
    decreases n
  {
    if n != 0 {
      ReadKeepsInv(p);
      DrainYields(ReadStep(p).0, n - 1);
      HeadAndRest(Unread(p), n);
    }
  }

  /** After a run the readers get precisely the remaining bytes; what comes next is the end of file
      exactly when there was one close, and an endless wait otherwise. */
  lemma {:induction false} EndOfFileIff(evs: seq<Event>)
    ensures var p := Run(CREATED, evs); var (bytes, q) := Drain(p, p.count);
      && |p.read| <= |p.written| && bytes == Unread(p)
      && ReadStep(q) == (q, if Closes(evs) == 1 then EndOfFile else Waits)
  {
    RunKeepsInv(CREATED, evs);
    var p := Run(CREATED, evs);
    DrainYields(p, p.count);
  }
}
