/** The kernel heap allocator (src/mm/kmalloc.c): headers and payloads share one byte array
    standing for the 32-bit address space. */
module Kmalloc {
  import opened Machine
  import opened BlockList
  import opened HeapBytes
  import opened HeapMemory
  import opened HeapOverrun
  import Pmm

  // The allocator's bitmap is not part of the heap.
  ghost predicate Apart(mem: Memory, pmm: Pmm.FrameAllocator) {
    var heap: set<object> := {mem, mem.bytes};
    var frames: set<object> := {pmm, pmm.bitmap};
    heap !! frames
  }

  class Heap {
    const mem: Memory
    const pmm: Pmm.FrameAllocator
    var heapHead: u32
    var heapCurrent: u32
    ghost var blocks: seq<Block>
    ghost var taken: set<nat>

    ghost function View(): State
      reads this, pmm
    {
      State(blocks, heapCurrent, pmm.frames, taken)
    }

    /** The list from heapHead is `blocks`, which tile the heap up to `end`. */
    ghost predicate Listed(end: nat)
      reads this, mem, mem.bytes
    {
      && mem.Valid()
      && Tiles(blocks, KHEAP_START, end) && end <= 0x8000_0000
      && heapHead == AddrAt(blocks, 0)
      && Represents(mem.image, blocks)
    }

    // The headers from heapHead on are those of `blocks`, whether they tile the heap or not.
    ghost predicate Linked()
      reads this, mem, mem.bytes, pmm, pmm.bitmap
    {
      Apart(mem, pmm) && pmm.Valid() && mem.Valid() && heapHead == AddrAt(blocks, 0) && Represents(mem.image, blocks)
    }

    /** The bytes agree with the block list. What every run keeps beside it, BlockList.Inv(View()),
        is a matter of View() alone and is the subject of MallocCorrect and FreeCorrect. */
    ghost predicate Valid()
      reads this, mem, mem.bytes, pmm, pmm.bitmap
    {
      Apart(mem, pmm) && pmm.Valid() && Listed(heapCurrent)
    }

    // kmalloc_init
    constructor (mem: Memory, pmm: Pmm.FrameAllocator)
      requires Apart(mem, pmm) && mem.Valid() && pmm.Valid()
      ensures Valid() && this.mem == mem && this.pmm == pmm
      ensures blocks == [] && heapCurrent == KHEAP_START && taken == {}
    {
      this.mem, this.pmm := mem, pmm;
      heapHead, heapCurrent := 0, KHEAP_START;
      blocks, taken := [], {};
    }

    // ------------------------------------------------------------ lists

    // What block k's header says, and where it may lie.
    lemma HeaderOf(k: nat, end: nat)
      requires Listed(end) && k < |blocks|
      ensures var b := blocks[k];
        && KHEAP_START <= b.addr && b.End() <= end
        && HeaderAt(mem.image, b.addr, b.size, b.free, AddrAt(blocks, k + 1))
    {
      TilesBounds(blocks, KHEAP_START, end, k);
      assert Spells(mem.image, blocks, k);
    }

    method FindFree(size: u32) returns (cur: u32)
      requires Listed(heapCurrent)
      ensures cur == AddrAt(blocks, FirstFit(blocks, size))
    {
      cur := heapHead;
      ghost var k := 0;
      while cur != 0
        invariant k <= |blocks| && cur == AddrAt(blocks, k)
        invariant FirstFit(blocks, size) == FirstFit(blocks, size, k)
        decreases |blocks| - k
      {
        HeaderOf(k, heapCurrent);
        var blockSize := mem.GetWord(cur);
        var flag := mem.GetByte(cur + 4);
        if flag != 0 && blockSize >= size {
          return;
        }
        cur := mem.GetWord(cur + 8);
        k := k + 1;
      }
      if k < |blocks| {
        HeaderOf(k, heapCurrent);
      }
    }

    // The walk to the end of the list.
    method Last(ghost end: nat) returns (last: u32)
      requires Listed(end) && blocks != []
      ensures last == blocks[|blocks| - 1].addr
    {
      last := heapHead;
      ghost var k := 0;
      HeaderOf(0, end);
      var next := mem.GetWord(last + 8);
      while next != 0
        invariant k < |blocks| && last == blocks[k].addr && next == AddrAt(blocks, k + 1)
        decreases |blocks| - k
      {
        last := next;
        k := k + 1;
        HeaderOf(k, end);
        next := mem.GetWord(last + 8);
      }
      if k + 1 < |blocks| {
        HeaderOf(k + 1, end);
      }
    }

    // The pages taken from the frame allocator; their addresses are not used.
    method TakeAll(pages: nat) returns (ok: bool)
      requires pmm.Valid()
      modifies pmm, pmm.bitmap
      ensures pmm.Valid() && (pmm.frames, ok) == TakePages(old(pmm.frames), pages)
    {
      var i := 0;
      while i < pages
        invariant i <= pages && pmm.Valid()
        invariant TakePages(old(pmm.frames), pages) == TakePages(pmm.frames, pages - i)
      {
        var page := pmm.AllocPage();
        if page == 0 {
          return false;
        }
        i := i + 1;
      }
      return true;
    }

    /** expand_heap: the list and the bytes as BlockList.Expand and HeapBytes.ExtendStep say, also when
        the page count wrapped. */
    method ExpandHeap(size: u32) returns (blk: u32)
      requires Valid() && Expand(View(), size).0.current <= 0x8000_0000
      modifies this, mem, mem.bytes, pmm, pmm.bitmap
      ensures Linked() && View() == Expand(old(View()), size).0
      ensures blk == if Expand(old(View()), size).1 then old(heapCurrent) else 0
      ensures if blk == 0 then mem.image == old(mem.image) && blocks == old(blocks)
              else ExtendStep(old(mem.image), mem.image, old(blocks), old(heapCurrent), Pages(size))
    {
      ghost var frames := pmm.frames;
      var pages := PageCount(size);
      var ok := TakeAll(pages);
      taken := taken + (pmm.frames.used - frames.used);
      if !ok {
        return 0;
      }
      blk := heapCurrent;
      AppendBlock(pages);
    }

    // The second half of expand_heap: a block of the new pages goes on the end of the list.
    method AppendBlock(pages: nat)
      requires Listed(heapCurrent) && heapCurrent + pages * 4096 <= 0x8000_0000
      modifies this, mem, mem.bytes
      ensures mem.Valid()
      ensures blocks == Extend(old(blocks), old(heapCurrent), pages) && taken == old(taken)
      ensures heapCurrent == old(heapCurrent) + pages * 4096 && heapHead == AddrAt(blocks, 0)
      ensures Represents(mem.image, blocks)
      ensures ExtendStep(old(mem.image), mem.image, old(blocks), old(heapCurrent), pages)
    {
      ghost var m := mem.image;
      ghost var end := heapCurrent;
      var newBlock := heapCurrent;
      mem.FillHeader(newBlock, Wrap(pages * 4096 - 12), true, 0);
      ghost var m1 := mem.image;
      BeyondRepresents(m, m1, blocks, KHEAP_START, end);
      if blocks != [] {
        HeaderOf(0, end);
      }
      heapCurrent := heapCurrent + pages * 4096;
      if heapHead == 0 {
        heapHead := newBlock;
      } else {
        LinkLast(newBlock, end);
      }
      assert ExtendWrites(m, m1, mem.image, blocks, end, pages);
      ExtendRepresents(m, m1, mem.image, blocks, KHEAP_START, end, pages);
      blocks := Extend(blocks, end, pages);
    }

    method LinkLast(newBlock: u32, ghost end: nat)
      requires Listed(end) && blocks != []
      modifies mem, mem.bytes
      ensures mem.Valid()
      ensures var b := blocks[|blocks| - 1]; Wrote(old(mem.image), mem.image, b.addr, b.size, b.free, newBlock)
    {
      var last := Last(end);
      ghost var b := blocks[|blocks| - 1];
      HeaderOf(|blocks| - 1, end);
      mem.WriteNext(last, newBlock, b, 0);
    }

    // ------------------------------------------------------------ kmalloc, kfree

    /** kmalloc does what HeapOverrun.Gives says, for every size; when the request fits the heap stays
        valid. */
    method Malloc(size: u32) returns (p: u32)
      requires Valid() && Inv(View())
      modifies this, mem, mem.bytes, pmm, pmm.bitmap
      ensures mem.Valid() && pmm.Valid()
      ensures Gives(old(View()), old(mem.image), size, View(), heapHead, p, mem.image)
      ensures Fits(old(View()), size) ==> Valid()
    {
      ghost var s, m := View(), mem.image;
      if size == 0 {
        WritesGive(s, m, size, m);
        assert Gives(s, m, size, View(), heapHead, 0, mem.image);
        return 0;
      }
      var blk := Reserve(size);
      ghost var s1, m1 := View(), mem.image;
      if blk == 0 {
        EmptyHanded(s, m, size, s1, heapHead, m1);
        return 0;
      }
      SplitInReach(s, m, size, s1, heapHead, blk, m1);
      mem.Carve(blk, size);
      ghost var s2 := Completed(s, m, size, s1, heapHead, blk, m1, mem.image);
      blocks := s2.blocks;
      p := blk + 12;
      if Fits(s, size) {
        GivenTiles(s, m, size, s2, heapHead, p, mem.image);
      }
    }

    // The first half of kmalloc: a free block that fits, from a larger heap if need be.
    method Reserve(size: u32) returns (blk: u32)
      requires Valid() && Inv(View()) && 0 < size
      modifies this, mem, mem.bytes, pmm, pmm.bitmap
      ensures Linked() && HasReserved(old(View()), old(mem.image), size, View(), heapHead, blk, mem.image)
    {
      ghost var s, m, k := View(), mem.image, FirstFit(blocks, size);
      if k < |blocks| {
        HeaderOf(k, heapCurrent);
      }
      ExpandInRange(s, size);
      blk := FindFree(size);
      if blk == 0 {
        blk := ExpandHeap(size);
        ReservedGrown(s, m, size, View(), heapHead, blk, mem.image);
      } else {
        ReservedFound(s, m, size, heapHead, blk);
      }
    }

    // The body of kfree on block k.
    method WriteRelease(blk: u32, ghost bs: seq<Block>, ghost k: nat, ghost end: nat)
      requires mem.Valid() && end <= 0x8000_0000
      requires Tiles(bs, KHEAP_START, end) && Represents(mem.image, bs)
      requires k < |bs| && blk == bs[k].addr && blk + 12 <= end && AddrAt(bs, k + 2) <= end && !bs[k].free
      modifies mem, mem.bytes
      ensures mem.Valid()
      ensures ReleaseWrites(old(mem.image), mem.image, bs, k)
    {
      ghost var m := mem.image;
      assert Spells(m, bs, k);
      mem.WriteFree(blk, true, bs[k], AddrAt(bs, k + 1));
      ghost var m1 := mem.image;
      var next := mem.GetWord(blk + 8);
      if next == 0 {
        ReleasedLast(m, m1, bs, end, k);
        return;
      }
      SuccessorOf(m, m1, bs, end, k);
      var flag := mem.GetByte(next + 4);
      if flag == 0 {
        ReleasedAlone(m, m1, bs, k);
        return;
      }
      Absorb(blk, next, bs[k].(free := true), bs[k + 1], AddrAt(bs, k + 2));
      ReleasedJoined(m, m1, mem.image, bs, k);
    }

    // The block's header takes over its free successor.
    method Absorb(blk: u32, next: u32, ghost b: Block, ghost c: Block, ghost after: nat)
      requires mem.Valid() && c.End() <= 0x8000_0000 && after <= 0x8000_0000
      requires blk == b.addr && next == c.addr == b.End()
      requires HeaderAt(mem.image, blk, b.size, b.free, next) && HeaderAt(mem.image, next, c.size, c.free, after)
      modifies mem, mem.bytes
      ensures mem.Valid()
      ensures Wrote(old(mem.image), mem.image, blk, b.size + 12 + c.size, b.free, after)
    {
      ghost var m := mem.image;
      var size := mem.GetWord(blk);
      var nextSize := mem.GetWord(next);
      WrapSmall(size + 12 + nextSize);
      mem.WriteSize(blk, Wrap(size as int + 12 + nextSize), b, next);
      ghost var m1 := mem.image;
      HeaderKept(m, m1, blk, blk + 12, next, c.size, c.free, after);
      var nextNext := mem.GetWord(next + 8);
      mem.WriteNext(blk, nextNext, b.(size := b.size + 12 + c.size), next);
      WroteTwice(m, m1, mem.image, blk, b.size + 12 + c.size, b.free, after);
    }

    method Unmark(blk: u32, ghost k: nat)
      requires Listed(heapCurrent)
      requires k < |blocks| && blk == blocks[k].addr && !blocks[k].free
      modifies mem, mem.bytes, this`blocks
      ensures blocks == Release(old(blocks), k) && Listed(heapCurrent)
      ensures ReleaseWrites(old(mem.image), mem.image, old(blocks), k)
      ensures PayloadsKept(old(mem.image), mem.image, Live(old(blocks)))
    {
      HeaderOf(k, heapCurrent);
      ghost var m := mem.image;
      if k + 1 < |blocks| {
        NextInRange(blocks, KHEAP_START, heapCurrent, k + 1);
      }
      WriteRelease(blk, blocks, k, heapCurrent);
      ReleaseTiles(blocks, KHEAP_START, heapCurrent, k);
      ReleaseRepresents(m, mem.image, blocks, KHEAP_START, heapCurrent, k);
      ReleaseKeepsPayloads(m, mem.image, blocks, KHEAP_START, heapCurrent, k);
      blocks := Release(blocks, k);
    }

    /** kfree of NULL or of a pointer the client owns. */
    method Free(ptr: u32)
      requires Valid() && Inv(View()) && (ptr == 0 || ptr in Live(blocks))
      modifies this, mem, mem.bytes
      ensures Valid()
      ensures View() == if ptr == 0 then old(View()) else BlockList.Free(old(View()), ptr)
      ensures if ptr == 0 then mem.image == old(mem.image)
              else ByteStep(old(View()), old(mem.image), FreeOp(ptr), mem.image)
      ensures PayloadsKept(old(mem.image), mem.image, Live(old(blocks)))
    {
      if ptr == 0 {
        return;
      }
      LiveIs(blocks, KHEAP_START, heapCurrent, ptr);
      Unmark(ptr - 12, IndexOf(blocks, ptr));
    }

    // ------------------------------------------------------------ kcalloc, krealloc

    /** kcalloc: a zeroed block of count * size bytes modulo 2^32 (see CallocFits). */
    method Calloc(count: u32, size: u32) returns (p: u32)
      requires Valid() && Inv(View()) && Fits(View(), Wrap(count * size))
      modifies this, mem, mem.bytes, pmm, pmm.bitmap
      ensures Valid()
      ensures View() == BlockList.Malloc(old(View()), Wrap(count * size)).0
      ensures p == BlockList.Malloc(old(View()), Wrap(count * size)).1
      ensures ByteStep(old(View()), old(mem.image), CallocOp(count, size), mem.image)
      ensures p != 0 ==> forall x :: p <= x < p + Wrap(count * size) && x < 0x1_0000_0000 ==> mem.image[x] == 0
      ensures PayloadsKept(old(mem.image), mem.image, Live(old(blocks)))
    {
      var total := Product(count, size);
      ghost var s, m := View(), mem.image;
      p := Malloc(total);
      GivenTiles(s, m, total, View(), heapHead, p, mem.image);
      ghost var m1 := mem.image;
      if p != 0 {
        GivenPayload(s, m, total, View(), heapHead, p, m1);
        PayloadInRange(p);
        mem.Zero(p, total);
        PayloadWrite(m1, mem.image, blocks, KHEAP_START, heapCurrent, p, total);
      }
      ZeroedStep(s, m, total, View(), heapHead, p, m1, mem.image);
    }

    lemma {:induction false} PayloadInRange(p: nat)
      requires Valid() && p in Live(blocks)
      ensures KHEAP_START + 12 <= p && p + Live(blocks)[p] <= heapCurrent
    {
      LiveIs(blocks, KHEAP_START, heapCurrent, p);
      var i :| 0 <= i < |blocks| && !blocks[i].free && blocks[i].Payload() == p;
      TilesBounds(blocks, KHEAP_START, heapCurrent, i);
    }

    // blk->size
    method SizeOf(ptr: u32) returns (n: u32)
      requires Valid() && ptr in Live(blocks)
      ensures n == Live(blocks)[ptr]
    {
      LiveIs(blocks, KHEAP_START, heapCurrent, ptr);
      HeaderOf(IndexOf(blocks, ptr), heapCurrent);
      n := mem.GetWord(ptr - 12);
    }

    /** krealloc: the state moves as Realloc says; the old contents are at the result, and, when
        there is no result, where they were. */
    method Realloc(ptr: u32, size: u32) returns (r: u32)
      requires Valid() && Inv(View()) && Fits(View(), size)
      requires ptr == 0 || ptr in Live(blocks)
      modifies this, mem, mem.bytes, pmm, pmm.bitmap
      ensures Valid()
      ensures View() == BlockList.Realloc(old(View()), ptr, size).0 && r == BlockList.Realloc(old(View()), ptr, size).1
      ensures ByteStep(old(View()), old(mem.image), ReallocOp(ptr, size), mem.image)
      ensures PayloadsKept(old(mem.image), mem.image, Live(old(blocks)) - {ptr})
      ensures r == 0 ==> PayloadsKept(old(mem.image), mem.image, Live(old(blocks)))
      ensures r != 0 && ptr != 0 ==> Moved(old(mem.image), mem.image, ptr, r, Live(old(blocks))[ptr])
    {
      if ptr == 0 {
        r := Malloc(size);
        GivenHeap(old(View()), old(mem.image), size, View(), heapHead, r, mem.image);
        return;
      }
      if size == 0 {
        Free(ptr);
        return 0;
      }
      PayloadInRange(ptr);
      var blockSize := SizeOf(ptr);
      if blockSize >= size {
        return ptr;
      }
      r := Larger(ptr, size);
    }

    // The tail of krealloc: a larger block, the contents copied, and the old block freed.
    method Larger(ptr: u32, size: u32) returns (r: u32)
      requires Valid() && Inv(View()) && Fits(View(), size) && ptr in Live(blocks) && Live(blocks)[ptr] < size
      modifies this, mem, mem.bytes, pmm, pmm.bitmap
      ensures Valid() && r == BlockList.Malloc(old(View()), size).1
      ensures var (s', q) := BlockList.Malloc(old(View()), size);
        View() == if q == 0 then s' else BlockList.Free(s', ptr)
      ensures MoveStep(old(View()), old(mem.image), ptr, size, mem.image)
      ensures PayloadsKept(old(mem.image), mem.image, Live(old(blocks)) - {ptr})
      ensures r == 0 ==> PayloadsKept(old(mem.image), mem.image, Live(old(blocks)))
      ensures r != 0 ==> Moved(old(mem.image), mem.image, ptr, r, Live(old(blocks))[ptr])
    {
      ghost var s, m := View(), mem.image;
      PayloadInRange(ptr);
      LargerMoves(s, ptr, size);
      r := Malloc(size);
      GivenHeap(s, m, size, View(), heapHead, r, mem.image);
      ghost var m1, m2 := mem.image, mem.image;
      if r != 0 {
        CopyOut(r, ptr);
        m2 := mem.image;
        Free(ptr);
      }
      LargerKeeps(s, m, m1, m2, ptr, size, mem.image);
    }

    // memcpy(new_ptr, ptr, blk->size)
    method CopyOut(r: u32, ptr: u32)
      requires Valid() && ptr in Live(blocks) && r in Live(blocks) && r != ptr
      requires Live(blocks)[ptr] <= Live(blocks)[r]
      modifies mem, mem.bytes
      ensures Valid()
      ensures CopyStep(old(mem.image), mem.image, ptr, r, Live(blocks)[ptr])
    {
      PayloadInRange(r);
      PayloadInRange(ptr);
      if r < ptr {
        LiveDisjoint(blocks, KHEAP_START, heapCurrent, r, ptr);
      } else {
        LiveDisjoint(blocks, KHEAP_START, heapCurrent, ptr, r);
      }
      var n := SizeOf(ptr);
      ghost var m := mem.image;
      mem.Copy(r, ptr, n);
      PayloadWrite(m, mem.image, blocks, KHEAP_START, heapCurrent, r, n);
    }
  }

  lemma {:induction false} LargerMoves(s: State, p: nat, size: u32)
    requires Inv(s) && Fits(s, size) && p in Live(s.blocks) && Live(s.blocks)[p] < size
    ensures var (s', r) := BlockList.Malloc(s, size); r != 0 ==>
      && Inv(s') && r != p && p in Live(s'.blocks) && r in Live(s'.blocks)
      && Live(s.blocks)[p] == Live(s'.blocks)[p] <= Live(s'.blocks)[r]
  {
    MallocCorrect(s, size);
  }

  lemma {:induction false} LargerKeeps(s: State, m: seq<byte>, m1: seq<byte>, m2: seq<byte>, p: nat, size: u32,
                                       m': seq<byte>)
    requires Inv(s) && Fits(s, size) && Represents(m, s.blocks) && p in Live(s.blocks) && Live(s.blocks)[p] < size
    requires p + Live(s.blocks)[p] <= |m| && MallocStep(s, m, size, m1)
    requires var (s', r) := BlockList.Malloc(s, size);
      if r == 0 then m' == m1 else CopyStep(m1, m2, p, r, Live(s.blocks)[p]) && FreeStep(s', m2, p, m')
    ensures MoveStep(s, m, p, size, m')
    ensures var r := BlockList.Malloc(s, size).1;
      if r == 0 then PayloadsKept(m, m', Live(s.blocks))
      else PayloadsKept(m, m', Live(s.blocks) - {p}) && Moved(m, m', p, r, Live(s.blocks)[p])
  {
    assert MoveWrites(s, m, m1, m2, p, size, m');
    MoveStepKeeps(s, m, p, size, m');
  }

  // ---------------------------------------------------------------- the halves of kmalloc

  /** The state after the first half, and whether there is a block to hand out. */
  function Reserved(s: State, size: u32): (State, bool) {
    if FirstFit(s.blocks, size) < |s.blocks| then (s, true) else Expand(s, size)
  }

  ghost predicate ReservedStep(s: State, m: seq<byte>, size: u32, m1: seq<byte>) {
    if FirstFit(s.blocks, size) < |s.blocks| || !Expand(s, size).1 then m1 == m
    else ExtendStep(m, m1, s.blocks, s.current, Pages(size))
  }

  /** Where the first half leaves the heap, and the block it found, 0 for none. */
  ghost predicate ReservedIs(s: State, m: seq<byte>, size: u32, s1: State, head: nat, blk: nat, m1: seq<byte>) {
    && s1 == Reserved(s, size).0 && head == AddrAt(s1.blocks, 0) && ReservedStep(s, m, size, m1)
    && (if !Reserved(s, size).1 then blk == 0
        else FirstFit(s.blocks, size) < |s1.blocks| && blk == s1.blocks[FirstFit(s.blocks, size)].addr)
  }

  // The same; the quantifier keeps it folded where it is only handed on.
  ghost predicate HasReserved(s: State, m: seq<byte>, size: u32, s1: State, head: nat, blk: nat, m1: seq<byte>) {
    forall n: u32 | n == size :: ReservedIs(s, m, n, s1, head, blk, m1)
  }

  lemma {:induction false} ReservedFound(s: State, m: seq<byte>, size: u32, head: nat, blk: nat)
    requires head == AddrAt(s.blocks, 0) && blk == AddrAt(s.blocks, FirstFit(s.blocks, size)) != 0
    ensures HasReserved(s, m, size, s, head, blk, m)
  {
  }

  lemma {:induction false} ReservedGrown(s: State, m: seq<byte>, size: u32, s1: State, head: nat, blk: nat,
                                         m1: seq<byte>)
    requires Inv(s) && AddrAt(s.blocks, FirstFit(s.blocks, size)) == 0 && s1 == Expand(s, size).0
    requires head == AddrAt(s1.blocks, 0) && blk == (if Expand(s, size).1 then s.current else 0)
    requires if blk == 0 then m1 == m else ExtendStep(m, m1, s.blocks, s.current, Pages(size))
    ensures HasReserved(s, m, size, s1, head, blk, m1)
  {
    StartsBelow(s);
    if FirstFit(s.blocks, size) < |s.blocks| {
      TilesBounds(s.blocks, KHEAP_START, s.current, FirstFit(s.blocks, size));
    }
  }

  lemma {:induction false} EmptyHanded(s: State, m: seq<byte>, size: u32, s1: State, head: nat, m1: seq<byte>)
    requires Inv(s) && Represents(m, s.blocks) && |m| == 0x1_0000_0000 && 0 < size
    requires HasReserved(s, m, size, s1, head, 0, m1)
    ensures Gives(s, m, size, s1, head, 0, m1) && Fits(s, size)
    ensures Tiles(s1.blocks, KHEAP_START, s1.current) && s1.current <= 0x8000_0000 && Represents(m1, s1.blocks)
  {
    assert ReservedIs(s, m, size, s1, head, 0, m1);
    if Reserved(s, size).1 {
      ReservedBlock(s, size);
    }
    if !Fits(s, size) {
      Overrun(s, size);
    }
    WritesGive(s, m, size, m);
    GivenTiles(s, m, size, s1, head, 0, m1);
  }

  lemma {:induction false} SplitInReach(s: State, m: seq<byte>, size: u32, s1: State, head: nat, blk: nat,
                                        m1: seq<byte>)
    requires Inv(s) && 0 < size && HasReserved(s, m, size, s1, head, blk, m1) && blk != 0
    ensures blk + 12 < 0x1_0000_0000 && SplitReaches(blk, size)
  {
    assert ReservedIs(s, m, size, s1, head, blk, m1);
    ReservedBlock(s, size);
  }

  // The block handed out, and where the split goes.
  lemma {:induction false} ReservedBlock(s: State, size: u32)
    requires Inv(s) && 0 < size && Reserved(s, size).1
    ensures var bs := Reserved(s, size).0.blocks; var k := FirstFit(s.blocks, size);
      && k < |bs| && bs[0].addr == KHEAP_START && 0 < bs[k].addr <= 0x8000_0000 && SplitReaches(bs[k].addr, size)
      && var (s', p) := BlockList.Malloc(s, size);
      p == bs[k].addr + 12 && s' == Reserved(s, size).0.(blocks := s'.blocks)
  {
    HeapEnds(s);
    if FirstFit(s.blocks, size) < |s.blocks| {
      BlockReaches(s.blocks, s.current, FirstFit(s.blocks, size), size);
    } else {
      StartsBelow(s);
      GrownInMemory(s, size);
    }
  }

  lemma {:induction false} BlockReaches(bs: seq<Block>, end: nat, k: nat, size: u32)
    requires Tiles(bs, KHEAP_START, end) && end <= 0x8000_0000 && k < |bs| && size <= bs[k].size
    ensures 0 < bs[k].addr <= 0x8000_0000 && SplitReaches(bs[k].addr, size)
  {
    TilesBounds(bs, KHEAP_START, end, k);
    SplitInMemory(bs[k].addr, size);
  }

  lemma {:induction false} StartsBelow(s: State)
    requires Inv(s)
    ensures KHEAP_START <= s.current && (s.blocks == [] ==> s.current == KHEAP_START)
  {
    if s.blocks != [] {
      TilesBounds(s.blocks, KHEAP_START, s.current, 0);
    }
  }

  lemma {:induction false} GrownInMemory(s: State, size: u32)
    requires Inv(s) && Expand(s, size).1 && KHEAP_START <= s.current <= 0x8000_0000
    ensures SplitReaches(s.current, size)
  {
    if size <= MAX_REQUEST {
      ExpandKeepsInv(s, size);
      HeapEnds(Expand(s, size).0);
      PagesCover(size);
    }
    SplitInMemory(s.current, size);
  }

  lemma SplitInMemory(blk: nat, size: u32)
    requires KHEAP_START <= blk <= 0x8000_0000 && (blk + 12 + size <= 0x8000_0000 || MAX_REQUEST < size)
    ensures SplitReaches(blk, size)
  {
  }

  /** The second half completes the writes of kmalloc. */
  lemma {:induction false} Completed(s: State, m: seq<byte>, size: u32, s1: State, head: nat, blk: nat, m1: seq<byte>,
                                     m2: seq<byte>)
    returns (s2: State)
    requires Inv(s) && Represents(m, s.blocks) && |m| == 0x1_0000_0000 && 0 < size
    requires HasReserved(s, m, size, s1, head, blk, m1) && blk != 0 && CarvedAt(m1, blk, size, m2)
    ensures Gives(s, m, size, s2, head, blk + 12, m2) && s2 == s1.(blocks := s2.blocks)
  {
    CompletedWrites(s, m, size, s1, head, blk, m1, m2);
    s2 := HandedOut(s, m, size, s1, head, blk, m1);
    WritesGive(s, m, size, m2);
  }

  lemma {:induction false} CompletedWrites(s: State, m: seq<byte>, size: u32, s1: State, head: nat, blk: nat,
                                           m1: seq<byte>, m2: seq<byte>)
    requires Inv(s) && Represents(m, s.blocks) && |m| == 0x1_0000_0000 && 0 < size
    requires HasReserved(s, m, size, s1, head, blk, m1) && blk != 0 && CarvedAt(m1, blk, size, m2)
    ensures MallocWrites(s, m, size, m2)
  {
    assert ReservedIs(s, m, size, s1, head, blk, m1);
    ReservedWrites(s, m, m1, size, m2);
  }

  // Malloc's state and result, seen from the block reserved.
  lemma {:induction false} HandedOut(s: State, m: seq<byte>, size: u32, s1: State, head: nat, blk: nat, m1: seq<byte>)
    returns (s2: State)
    requires Inv(s) && 0 < size && HasReserved(s, m, size, s1, head, blk, m1) && blk != 0
    ensures (s2, blk + 12) == BlockList.Malloc(s, size) && head == HeadAfter(s, size)
    ensures s2 == s1.(blocks := s2.blocks)
  {
    assert ReservedIs(s, m, size, s1, head, blk, m1);
    ReservedBlock(s, size);
    s2 := BlockList.Malloc(s, size).0;
  }

  lemma {:induction false} ReservedWrites(s: State, m: seq<byte>, m1: seq<byte>, size: u32, m2: seq<byte>)
    requires Inv(s) && Represents(m, s.blocks) && 0 < size && Reserved(s, size).1
    requires |m| == 0x1_0000_0000 && ReservedStep(s, m, size, m1)
    requires var bs := Reserved(s, size).0.blocks; var k := FirstFit(s.blocks, size);
      k < |bs| && CarvedAt(m1, bs[k].addr, size, m2)
    ensures MallocWrites(s, m, size, m2)
  {
    if Fits(s, size) {
      ReservedCarved(s, m, m1, size, m2);
    } else {
      Overrun(s, size);
      OverrunCarved(s, m, m1, size, m2);
    }
  }

  lemma {:induction false} OverrunCarved(s: State, m: seq<byte>, m1: seq<byte>, size: u32, m2: seq<byte>)
    requires Inv(s) && !Fits(s, size) && ReservedStep(s, m, size, m1) && CarvedAt(m1, s.current, size, m2)
    requires |m| == 0x1_0000_0000
    ensures OverrunStep(s, m, size, m2)
  {
    Overrun(s, size);
    assert ExtendStep(m, m1, s.blocks, s.current, Pages(size)) && CarvedAt(m1, s.current, size, m2);
  }

  lemma {:induction false} ReservedCarved(s: State, m: seq<byte>, m1: seq<byte>, size: u32, m2: seq<byte>)
    requires Inv(s) && Represents(m, s.blocks) && 0 < size && Fits(s, size) && Reserved(s, size).1
    requires |m| == 0x1_0000_0000 && ReservedStep(s, m, size, m1)
    requires var bs := Reserved(s, size).0.blocks; var k := FirstFit(s.blocks, size);
      k < |bs| && CarvedAt(m1, bs[k].addr, size, m2)
    ensures MallocStep(s, m, size, m2)
  {
    var s1, k := Reserved(s, size).0, FirstFit(s.blocks, size);
    if k == |s.blocks| {
      FitsWhenGrown(s, size);
      ExpandKeepsInv(s, size);
      PagesCover(size);
      ExtendStepKeeps(m, m1, s, size);
    }
    BlockPlaces(s1, m1, k, size);
  }

  lemma {:induction false} BlockPlaces(s: State, m: seq<byte>, k: nat, size: u32)
    requires Inv(s) && Represents(m, s.blocks) && |m| == 0x1_0000_0000
    requires k < |s.blocks| && s.blocks[k].free && size <= s.blocks[k].size
    ensures Wrap(s.blocks[k].addr + 12 + size) + 12 <= |m| && s.blocks[k].addr + 12 <= |m|
    ensures PlaceStep(m, Carved(m, s.blocks[k].addr, size), s.blocks, k, size)
  {
    HeapEnds(s);
    TilesBounds(s.blocks, KHEAP_START, s.current, k);
    assert Spells(m, s.blocks, k);
    CarvedPlaces(m, s.blocks, k, size);
  }

  lemma {:induction false} GivenPayload(s: State, m: seq<byte>, total: u32, s': State, head: nat, p: nat, m1: seq<byte>)
    requires Inv(s) && Fits(s, total) && p != 0 && Gives(s, m, total, s', head, p, m1)
    ensures p in Live(s'.blocks) && total <= Live(s'.blocks)[p]
  {
    GivenHeap(s, m, total, s', head, p, m1);
    MallocCorrect(s, total);
  }

  lemma {:induction false} ZeroedStep(s: State, m: seq<byte>, total: u32, s': State, head: nat, p: nat, m1: seq<byte>,
                                      m2: seq<byte>)
    requires Inv(s) && Fits(s, total) && Represents(m, s.blocks) && Gives(s, m, total, s', head, p, m1)
    requires if p == 0 then m2 == m1 else Zeroed(m1, m2, p, total)
    ensures (s', p) == BlockList.Malloc(s, total) && CallocStep(s, m, total, m2) && PayloadsKept(m, m2, Live(s.blocks))
  {
    GivenHeap(s, m, total, s', head, p, m1);
    assert MallocStep(s, m, total, m1);
    CallocStepKeeps(s, m, total, m2);
  }

  /** What kcalloc returns holds count * size bytes exactly when the product did not wrap. */
  lemma {:induction false} CallocFits(s: State, count: u32, size: u32)
    requires Inv(s) && Fits(s, Wrap(count * size))
    requires BlockList.Malloc(s, Wrap(count * size)).1 != 0
    ensures var (s', p) := BlockList.Malloc(s, Wrap(count * size));
      p in Live(s'.blocks) && (Live(s'.blocks)[p] >= count * size <==> count * size < 0x1_0000_0000)
  {
    TotalFits(s, count * size);
  }

  lemma {:induction false} TotalFits(s: State, x: int)
    requires Inv(s) && Fits(s, Wrap(x)) && BlockList.Malloc(s, Wrap(x)).1 != 0
    ensures var (s', p) := BlockList.Malloc(s, Wrap(x));
      p in Live(s'.blocks) && (Live(s'.blocks)[p] >= x <==> x < 0x1_0000_0000)
  {
    TotalGiven(s, Wrap(x));
    var (s', p) := BlockList.Malloc(s, Wrap(x));
    ProductFits(x, Wrap(x), Live(s'.blocks)[p]);
  }

  lemma {:induction false} TotalGiven(s: State, total: u32)
    requires Inv(s) && Fits(s, total) && BlockList.Malloc(s, total).1 != 0
    ensures var (s', p) := BlockList.Malloc(s, total);
      total <= MAX_REQUEST && p in Live(s'.blocks) && total <= Live(s'.blocks)[p] <= total + 28
  {
    MallocCorrect(s, total);
    FitsWhenGrown(s, total);
  }

  // At most 28 bytes more than the wrapped product do not make up for the wrap.
  lemma ProductFits(x: int, total: u32, got: nat)
    requires total == Wrap(x) && total <= MAX_REQUEST && total <= got <= total + 28
    ensures got >= x <==> x < 0x1_0000_0000
  {
  }

  // `count * size` in 32 bits
  method Product(count: u32, size: u32) returns (total: u32)
    ensures total == Wrap(count * size)
  {
    total := Wrap(count as int * size as int);
  }

  // A heap that grew still ends below 2^31, so no address computed from it wraps.
  lemma {:induction false} ExpandInRange(s: State, size: u32)
    requires Inv(s)
    ensures s.current <= 0x8000_0000 && Expand(s, size).0.current <= 0x8000_0000
  {
    HeapEnds(s);
    PagesCover(size);
    if size <= MAX_REQUEST {
      ExpandKeepsInv(s, size);
      HeapEnds(Expand(s, size).0);
    }
  }

  lemma NextInRange(bs: seq<Block>, start: nat, end: nat, k: nat)
    requires Tiles(bs, start, end) && k < |bs|
    ensures AddrAt(bs, k + 1) <= end
  {
    if k + 1 < |bs| {
      TilesBounds(bs, start, end, k + 1);
    }
  }

  // The three outcomes of kfree: no block follows, one that is not free, or one that is.
  lemma ReleasedLast(m: seq<byte>, m': seq<byte>, bs: seq<Block>, end: nat, k: nat)
    requires k < |bs| && Tiles(bs, KHEAP_START, end) && AddrAt(bs, k + 1) == 0
    requires Wrote(m, m', bs[k].addr, bs[k].size, true, 0)
    ensures ReleaseWrites(m, m', bs, k)
  {
    if k + 1 < |bs| {
      TilesBounds(bs, KHEAP_START, end, k + 1);
    }
  }

  lemma ReleasedAlone(m: seq<byte>, m': seq<byte>, bs: seq<Block>, k: nat)
    requires k + 1 < |bs| && !bs[k + 1].free && Wrote(m, m', bs[k].addr, bs[k].size, true, AddrAt(bs, k + 1))
    ensures ReleaseWrites(m, m', bs, k)
  {
  }

  lemma ReleasedJoined(m: seq<byte>, m1: seq<byte>, m': seq<byte>, bs: seq<Block>, k: nat)
    requires k + 1 < |bs| && bs[k + 1].free && Changed(m, m1, bs[k].addr, bs[k].addr + 12)
    requires Wrote(m1, m', bs[k].addr, bs[k].size + 12 + bs[k + 1].size, true, AddrAt(bs, k + 2))
    ensures ReleaseWrites(m, m', bs, k)
  {
    WroteTwice(m, m1, m', bs[k].addr, bs[k].size + 12 + bs[k + 1].size, true, AddrAt(bs, k + 2));
  }

  // With block k's header rewritten, its successor's still stands.
  lemma SuccessorOf(m: seq<byte>, m': seq<byte>, bs: seq<Block>, end: nat, k: nat)
    requires k < |bs| && Tiles(bs, KHEAP_START, end) && Represents(m, bs)
    requires AddrAt(bs, k + 1) != 0 && Changed(m, m', bs[k].addr, bs[k].addr + 12)
    ensures k + 1 < |bs|
    ensures var b := bs[k + 1];
      && b.End() <= end && bs[k].End() == b.addr
      && HeaderAt(m', b.addr, b.size, b.free, AddrAt(bs, k + 2))
  {
    assert Spells(m, bs, k + 1);
    TilesBounds(bs, KHEAP_START, end, k + 1);
    assert bs[k].End() == bs[k + 1].addr;
    var b := bs[k + 1];
    HeaderKept(m, m', bs[k].addr, bs[k].addr + 12, b.addr, b.size, b.free, AddrAt(bs, k + 2));
  }

  // `(sizeof(block_t) + size + PAGE_SIZE - 1) / PAGE_SIZE` in 32 bits
  method PageCount(size: u32) returns (pages: nat)
    ensures pages == Pages(size)
    ensures pages * 4096 >= 12 + size <==> size <= MAX_REQUEST
  {
    PagesCover(size);
    var needed: int := Wrap(12 + size as int);
    pages := Wrap(needed + 4096 - 1) / 4096;
  }
}
