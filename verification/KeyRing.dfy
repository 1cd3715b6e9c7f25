/** The keyboard's single-producer, single-consumer ring (src/drivers/keyboard.c) as a state
    machine: the interrupt handler may push between any two statements of the consumer. */
module KeyRing {
  import opened Machine
  import opened RingIndex

  /** Where the consumer stands in `while (head == tail); c = buffer[tail]; tail = tail + 1`. */
  datatype Consumer = Idle | Tested | Loaded(c: byte)

  /** The ring with its histories: the characters it accepted and those the consumer took. */
  datatype Ring = Ring(buffer: seq<byte>, head: nat, tail: nat, consumer: Consumer,
                       accepted: seq<byte>, consumed: seq<byte>)

  datatype Event = PushEv(c: byte) | TestEv | LoadEv | AdvanceEv

  const EMPTY: Ring := Ring(seq(256, _ => 0), 0, 0, Idle, [], [])

  function Next(i: nat): nat {
    (i + 1) % 256
  }

  predicate Shaped(r: Ring) {
    |r.buffer| == 256 && r.head < 256 && r.tail < 256
  }

  function Push(r: Ring, c: byte): (r': Ring)
    requires Shaped(r)
    ensures Shaped(r')
  {
    if Next(r.head) == r.tail then r
    else r.(buffer := r.buffer[r.head := c], head := Next(r.head), accepted := r.accepted + [c])
  }

  /** A statement of the consumer that is not due changes nothing. */
  function Step(r: Ring, ev: Event): (r': Ring)
    requires Shaped(r)
    ensures Shaped(r')
  {
    match ev
    case PushEv(c) => Push(r, c)
    case TestEv => if r.consumer == Idle && r.head != r.tail then r.(consumer := Tested) else r
    case LoadEv => if r.consumer == Tested then r.(consumer := Loaded(r.buffer[r.tail])) else r
    case AdvanceEv =>
      if r.consumer.Loaded?
      then r.(tail := Next(r.tail), consumer := Idle, consumed := r.consumed + [r.consumer.c])
      else r
  }

  function Unread(r: Ring): int {
    |r.accepted| - |r.consumed|
  }

  ghost predicate Inv(r: Ring) {
    && Shaped(r)
    && r.consumed <= r.accepted
    && Unread(r) <= 255
    && r.tail == |r.consumed| % 256 && r.head == |r.accepted| % 256
    && (forall i :: |r.consumed| <= i < |r.accepted| ==> Holds(r, i))
    && (r.consumer != Idle ==> 0 < Unread(r))
    && (r.consumer.Loaded? && 0 < Unread(r) ==> r.consumer.c == r.accepted[|r.consumed|])
  }

  /** Character number i, not yet consumed, is in its cell. */
  ghost predicate Holds(r: Ring, i: nat)
    requires |r.buffer| == 256 && i < |r.accepted|
  {
    r.buffer[i % 256] == r.accepted[i]
  }

  /** A push is refused exactly when 255 characters are unread. */
  lemma FullMeans(r: Ring, c: byte)
    requires Inv(r)
    ensures Push(r, c) == r <==> Unread(r) == 255
    ensures Unread(r) < 255 ==> Push(r, c).accepted == r.accepted + [c]
  {
    var n, m := |r.consumed|, |r.accepted|;
    NextMod(m, 256);
    if Unread(r) == 255 {
      assert m + 1 == n + 256;
    } else {
      CellsApart(n, m + 1, 256);
    }
  }

  lemma PushKeepsInv(r: Ring, c: byte)
    requires Inv(r)
    ensures Inv(Push(r, c))
  {
    FullMeans(r, c);
    var r' := Push(r, c);
    if Unread(r) < 255 {
      NextMod(|r.accepted|, 256);
      forall i | |r'.consumed| <= i < |r'.accepted|
        ensures Holds(r', i)
      {
        if i < |r.accepted| {
          assert Holds(r, i);
          CellsApart(i, |r.accepted|, 256);
        }
      }
    }
  }

  lemma AdvanceKeepsInv(r: Ring)
    requires Inv(r) && r.consumer.Loaded?
    ensures Inv(Step(r, AdvanceEv))
  {
    NextMod(|r.consumed|, 256);
    var r' := Step(r, AdvanceEv);
    forall i | |r'.consumed| <= i < |r'.accepted|
      ensures Holds(r', i)
    {
      assert Holds(r, i);
    }
  }

  lemma ConsumerKeepsInv(r: Ring, ev: Event)
    requires Inv(r) && (ev.TestEv? || ev.LoadEv?)
    ensures Inv(Step(r, ev))
  {
    var r' := Step(r, ev);
    forall i | |r'.consumed| <= i < |r'.accepted|
      ensures Holds(r', i)
    {
      assert Holds(r, i);
    }
    if ev.LoadEv? && r.consumer == Tested {
      assert Holds(r, |r.consumed|);
    }
    if r.consumer == Idle && Unread(r) == 0 {
      assert r.head == r.tail;
    }
  }

  lemma StepKeepsInv(r: Ring, ev: Event)
    requires Inv(r)
    ensures Inv(Step(r, ev))
  {
    match ev
    case PushEv(c) => PushKeepsInv(r, c);
    case TestEv => ConsumerKeepsInv(r, ev);
    case LoadEv => ConsumerKeepsInv(r, ev);
    case AdvanceEv => if r.consumer.Loaded? { AdvanceKeepsInv(r); }
  }

  function Run(r: Ring, evs: seq<Event>): Ring
    requires Shaped(r)
    decreases |evs|
  {
    if evs == [] then r else Run(Step(r, evs[0]), evs[1..])
  }

  lemma {:induction false} RunKeepsInv(r: Ring, evs: seq<Event>)
    requires Inv(r)
    ensures Inv(Run(r, evs))
    decreases |evs|
  {
    if evs != [] {
      StepKeepsInv(r, evs[0]);
      RunKeepsInv(Step(r, evs[0]), evs[1..]);
    }
  }

  /** However the interrupts fall, what the consumer took is a prefix of what was accepted, in
      order, nothing lost or repeated, and at most 255 characters wait. */
  lemma {:induction false} ConsumedIsPrefix(evs: seq<Event>)
    ensures Inv(EMPTY)
    ensures var r := Run(EMPTY, evs); r.consumed <= r.accepted && |r.accepted| <= |r.consumed| + 255
  {
    RunKeepsInv(EMPTY, evs);
  }

  /** The characters pushed during a run, refused ones included. */
  function Pushed(evs: seq<Event>): seq<byte> {
    if evs == [] then [] else (if evs[0].PushEv? then [evs[0].c] else []) + Pushed(evs[1..])
  }

  /** As long as the ring never has to refuse one, every character pushed is accepted. */
  lemma {:induction false} NoneRefused(r: Ring, evs: seq<Event>)
    requires Inv(r) && Unread(r) + |Pushed(evs)| <= 255
    ensures Run(r, evs).accepted == r.accepted + Pushed(evs)
    decreases |evs|
  {
    if evs != [] {
      StepKeepsInv(r, evs[0]);
      var r' := Step(r, evs[0]);
      if evs[0].PushEv? {
        FullMeans(r, evs[0].c);
        assert r.accepted + Pushed(evs) == r'.accepted + Pushed(evs[1..]);
      } else {
        assert Pushed(evs) == Pushed(evs[1..]);
      }
      NoneRefused(r', evs[1..]);
    }
  }

  /** An idle consumer with something unread takes exactly the oldest unread character, whatever
      is pushed between its three statements. */
  lemma {:induction false} TakesTheOldest(r: Ring, cs1: seq<byte>, cs2: seq<byte>)
    requires Inv(r) && r.consumer == Idle && 0 < Unread(r)
    ensures var r1 := PushAll(Step(r, TestEv), cs1); var r2 := PushAll(Step(r1, LoadEv), cs2);
      Step(r2, AdvanceEv).consumed == r.consumed + [r.accepted[|r.consumed|]]
  {
    var n, m := |r.consumed|, |r.accepted|;
    CellsApart(n, m, 256);
    StepKeepsInv(r, TestEv);
    PushAllKeeps(Step(r, TestEv), cs1);
    var r1 := PushAll(Step(r, TestEv), cs1);
    StepKeepsInv(r1, LoadEv);
    PushAllKeeps(Step(r1, LoadEv), cs2);
  }

  function PushAll(r: Ring, cs: seq<byte>): (r': Ring)
    requires Shaped(r)
    ensures Shaped(r')
    decreases |cs|
  {
    if cs == [] then r else PushAll(Push(r, cs[0]), cs[1..])
  }

  lemma {:induction false} PushAllKeeps(r: Ring, cs: seq<byte>)
    requires Inv(r)
    ensures var r' := PushAll(r, cs);
      Inv(r') && r'.consumer == r.consumer && r'.consumed == r.consumed && r.accepted <= r'.accepted
    decreases |cs|
  {
    if cs != [] {
      PushKeepsInv(r, cs[0]);
      PushAllKeeps(Push(r, cs[0]), cs[1..]);
    }
  }
}
