/** The keyboard ring's code (src/drivers/keyboard.c): the interrupt's push, and the consumer's
    three statements one by one. */
module Keyboard {
  import opened Machine
  import opened KeyRing
  import opened RingIndex

  class Buffer {
    const cells: array<byte>
    var head: nat
    var tail: nat
    ghost var consumer: Consumer
    ghost var accepted: seq<byte>
    ghost var consumed: seq<byte>

    ghost function View(): Ring
      reads this, cells
    {
      Ring(cells[..], head, tail, consumer, accepted, consumed)
    }

    ghost predicate Valid()
      reads this, cells
    {
      cells.Length == 256 && Inv(View())
    }

    // kb_init
    constructor ()
      ensures Valid() && fresh(cells) && View() == EMPTY
    {
      cells := new byte[256](_ => 0);
      head, tail := 0, 0;
      consumer, accepted, consumed := Idle, [], [];
      new;
      assert cells[..] == EMPTY.buffer;
    }

    method Push(c: byte)
      requires Valid()
      modifies this, cells
      ensures Valid() && View() == Step(old(View()), PushEv(c))
    {
      PushKeepsInv(View(), c);
      var next := (head + 1) % 256;
      if next != tail {
        cells[head] := c;
        head := next;
        accepted := accepted + [c];
      }
    }

    // while (kb_head == kb_tail): true when the consumer may go on
    method Test() returns (ready: bool)
      requires Valid() && consumer == Idle
      modifies this
      ensures Valid() && View() == Step(old(View()), TestEv)
      ensures ready <==> consumer == Tested
      ensures ready <==> |consumed| < |accepted|
    {
      ConsumerKeepsInv(View(), TestEv);
      ready := head != tail;
      if |consumed| < |accepted| {
        CellsApart(|consumed|, |accepted|, 256);
      }
      consumer := if ready then Tested else Idle;
    }

    // char c = kb_buffer[kb_tail]
    method Load() returns (c: byte)
      requires Valid() && consumer == Tested
      modifies this
      ensures Valid() && View() == Step(old(View()), LoadEv) && consumer == Loaded(c)
    {
      ConsumerKeepsInv(View(), LoadEv);
      c := cells[tail];
      consumer := Loaded(c);
    }

    // kb_tail = (kb_tail + 1) % KB_BUFFER_SIZE
    method Advance()
      requires Valid() && consumer.Loaded?
      modifies this
      ensures Valid() && View() == Step(old(View()), AdvanceEv)
    {
      AdvanceKeepsInv(View());
      tail := (tail + 1) % 256;
      consumed := consumed + [consumer.c];
      consumer := Idle;
    }

    // kb_has_input
    method HasInput() returns (b: bool)
      requires Valid()
      ensures b <==> |consumed| < |accepted|
    {
      if |consumed| < |accepted| {
        CellsApart(|consumed|, |accepted|, 256);
      }
      b := head != tail;
    }
  }
}
