/** kmalloc of a request whose page count wraps (src/mm/kmalloc.c): what the stores then leave in
    memory, whether that is still a heap, and whose payloads they hit. */
module HeapOverrun {
  import opened Machine
  import opened BlockList
  import opened HeapBytes
  import Pmm

  // ---------------------------------------------------------------- exactly when a heap is left

  /** The headers in memory spell the list bs: it starts at the head, its blocks tile the heap up to
      its end, and the pointer kmalloc returned, if any, is a live payload of it. */
  ghost predicate Carries(m: seq<byte>, bs: seq<Block>, head: nat, end: nat, p: nat) {
    Represents(m, bs) && head == AddrAt(bs, 0) && Tiles(bs, KHEAP_START, end) && (p != 0 ==> p in Live(bs))
  }

  /** Memory holds such a list. */
  ghost predicate Sound(m: seq<byte>, head: nat, end: nat, p: nat) {
    exists bs :: Carries(m, bs, head, end, p)
  }

  /** heap_head after kmalloc. */
  function HeadAfter(s: State, size: u32): nat {
    if Malloc(s, size).1 == 0 then AddrAt(s.blocks, 0) else KHEAP_START
  }

  /** What kmalloc writes, for every size. */
  ghost predicate MallocWrites(s: State, m: seq<byte>, size: u32, m': seq<byte>) {
    if Fits(s, size) then MallocStep(s, m, size, m') else OverrunStep(s, m, size, m')
  }

  /** kmalloc leaves a sound heap with its result in it exactly when the request fits. */
  lemma {:induction false} SoundIffFits(s: State, m: seq<byte>, size: u32, m': seq<byte>)
    requires Inv(s) && Represents(m, s.blocks) && |m| == 0x1_0000_0000 && MallocWrites(s, m, size, m')
    ensures var (s', p) := Malloc(s, size); Sound(m', HeadAfter(s, size), s'.current, p) <==> Fits(s, size)
  {
    var (s', p) := Malloc(s, size);
    if Fits(s, size) {
      MallocCorrect(s, size);
      MallocStepKeeps(s, m, size, m');
      assert Carries(m', s'.blocks, HeadAfter(s, size), s'.current, p);
    } else {
      forall bs
        ensures !Carries(m', bs, HeadAfter(s, size), s'.current, p)
      {
        NoListCarries(s, m, size, m', bs);
      }
    }
  }

  /** All that kmalloc does: its result, the end of the heap and the frames are Malloc's, for every
      size; a sound heap with the result in it is left exactly when the request fits, and then its list
      is Malloc's and no byte of a live payload changed. */
  ghost predicate Outcome(s: State, m: seq<byte>, size: u32, s': State, head: nat, p: nat, m': seq<byte>) {
    && p == Malloc(s, size).1 && s' == Malloc(s, size).0.(blocks := s'.blocks)
    && MallocWrites(s, m, size, m')
    && (Sound(m', head, s'.current, p) <==> Fits(s, size))
    && (Fits(s, size) ==>
          && s' == Malloc(s, size).0 && Inv(s') && s'.current <= 0x8000_0000
          && head == AddrAt(s'.blocks, 0) && Represents(m', s'.blocks) && PayloadsKept(m, m', Live(s.blocks)))
  }

  /** The same; the quantifier keeps it folded where it is only handed on. */
  ghost predicate Gives(s: State, m: seq<byte>, size: u32, s': State, head: nat, p: nat, m': seq<byte>) {
    forall n: u32 | n == size :: Outcome(s, m, n, s', head, p, m')
  }

  lemma {:induction false} GivenHeap(s: State, m: seq<byte>, size: u32, s': State, head: nat, p: nat, m': seq<byte>)
    requires Gives(s, m, size, s', head, p, m') && Fits(s, size)
    ensures (s', p) == Malloc(s, size) && MallocStep(s, m, size, m')
    ensures Inv(s') && s'.current <= 0x8000_0000 && head == AddrAt(s'.blocks, 0)
    ensures Represents(m', s'.blocks) && PayloadsKept(m, m', Live(s.blocks))
  {
    assert Outcome(s, m, size, s', head, p, m');
  }

  lemma {:induction false} GivenTiles(s: State, m: seq<byte>, size: u32, s': State, head: nat, p: nat, m': seq<byte>)
    requires Gives(s, m, size, s', head, p, m') && Fits(s, size)
    ensures Tiles(s'.blocks, KHEAP_START, s'.current) && s'.current <= 0x8000_0000
    ensures head == AddrAt(s'.blocks, 0) && Represents(m', s'.blocks)
  {
    assert Outcome(s, m, size, s', head, p, m');
  }

  /** Its writes do that. */
  lemma {:induction false} WritesGive(s: State, m: seq<byte>, size: u32, m': seq<byte>)
    requires Inv(s) && Represents(m, s.blocks) && |m| == 0x1_0000_0000 && MallocWrites(s, m, size, m')
    ensures Gives(s, m, size, Malloc(s, size).0, HeadAfter(s, size), Malloc(s, size).1, m')
  {
    SoundIffFits(s, m, size, m');
    if Fits(s, size) {
      MallocCorrect(s, size);
      MallocStepKeeps(s, m, size, m');
      HeapEnds(Malloc(s, size).0);
    }
  }

  // The block handed out would have to end at or below the end of the heap.
  lemma {:induction false} NoListCarries(s: State, m: seq<byte>, size: u32, m': seq<byte>, bs: seq<Block>)
    requires Inv(s) && !Fits(s, size) && |m| == 0x1_0000_0000 && OverrunStep(s, m, size, m')
    ensures !Carries(m', bs, HeadAfter(s, size), Malloc(s, size).0.current, Malloc(s, size).1)
  {
    Overrun(s, size);
    PagesCover(size);
    if Carries(m', bs, HeadAfter(s, size), Malloc(s, size).0.current, Malloc(s, size).1) {
      if Pages(size) == 1 {
        PageKeepsSize(s, m, size, m');
      }
      CarriedEnds(m', bs, s.current, Malloc(s, size).0.current);
    }
  }

  lemma {:induction false} CarriedEnds(m: seq<byte>, bs: seq<Block>, blk: nat, end: nat)
    requires Represents(m, bs) && Tiles(bs, KHEAP_START, end) && blk + 12 in Live(bs)
    ensures blk + 12 <= |m| && blk + 12 + Load32(m, blk) <= end
  {
    LiveIs(bs, KHEAP_START, end, blk + 12);
    var i :| 0 <= i < |bs| && !bs[i].free && bs[i].Payload() == blk + 12;
    TilesBounds(bs, KHEAP_START, end, i);
    assert Spells(m, bs, i);
  }

  // On a block of one page the split is taken, and stores the size last.
  lemma {:induction false} PageKeepsSize(s: State, m: seq<byte>, size: u32, m': seq<byte>)
    requires Inv(s) && OverrunStep(s, m, size, m') && Pages(size) == 1 && 0x1_0000_0000 - 12 < size
    ensures s.current + 12 <= |m'| && Load32(m', s.current) == size
  {
    WrapSmall(4084);
    var m1 := NewBlock(s, m, size, m');
    SplitKeepsSize(m1, s.current, size, m');
  }

  // The header of the new block, and the split from it.
  lemma {:induction false} NewBlock(s: State, m: seq<byte>, size: u32, m': seq<byte>) returns (m1: seq<byte>)
    requires Inv(s) && OverrunStep(s, m, size, m')
    ensures ExtendStep(m, m1, s.blocks, s.current, Pages(size)) && CarvedAt(m1, s.current, size, m')
    ensures |m1| == |m| && HeaderAt(m1, s.current, Wrap(Pages(size) * 4096 - 12), true, 0)
  {
    m1 :| ExtendStep(m, m1, s.blocks, s.current, Pages(size)) && CarvedAt(m1, s.current, size, m');
    NewHeader(s, m, m1, Pages(size));
  }

  lemma NewHeader(s: State, m: seq<byte>, m1: seq<byte>, pages: nat)
    requires Inv(s) && ExtendStep(m, m1, s.blocks, s.current, pages)
    ensures |m1| == |m| && HeaderAt(m1, s.current, Wrap(pages * 4096 - 12), true, 0)
  {
    var m0 :| ExtendWrites(m, m0, m1, s.blocks, s.current, pages);
    if s.blocks != [] {
      var b := s.blocks[|s.blocks| - 1];
      HeaderKept(m0, m1, b.addr, b.addr + 12, s.current, Wrap(pages * 4096 - 12), true, 0);
    }
  }

  lemma {:induction false} SplitKeepsSize(m: seq<byte>, blk: nat, size: u32, m': seq<byte>)
    requires 0x1_0000_0000 - 12 < size && CarvedAt(m, blk, size, m') && Load32(m, blk) == 4084
    ensures Load32(m', blk) == size
  {
    WrapOnce(size + 28);
    SizeStored(m, blk, size, Wrap(blk + 12 + size), Wrap(4084 - size - 12));
  }

  lemma WrapOnce(x: nat)
    requires 0x1_0000_0000 <= x < 0x2_0000_0000
    ensures Wrap(x) == x - 0x1_0000_0000
  {
  }

  lemma SizeStored(m: seq<byte>, blk: nat, size: u32, split: u32, rest: u32)
    requires blk + 12 <= |m| && split + 12 <= |m|
    ensures Load32(SplitBytes(m, blk, size, split, rest), blk) == size
  {
    var m1 := Store32(m, split, rest)[split + 4 := 1];
    var m2 := Store32(m1, split + 8, Load32(m1, blk + 8));
    StoreThenLoad(Store32(m2, blk + 8, split), blk, size);
  }

  // ---------------------------------------------------------------- where the stores land

  /** A request from 2^32 - 4107 to 2^32 - 41 bytes takes no page, and stores a free header at
      `split`, inside the last 4095 bytes below the heap's end, whatever was there. */
  lemma {:induction false} OverrunStores(s: State, m: seq<byte>, size: u32, m': seq<byte>, split: nat, rest: u32)
    requires Inv(s) && |m| == 0x1_0000_0000 && MAX_REQUEST < size < 0x1_0000_0000 - 40
    requires split == s.current + 12 + size - 0x1_0000_0000 && rest == 0x1_0000_0000 - 24 - size
    requires OverrunStep(s, m, size, m')
    ensures Malloc(s, size).1 == s.current + 12 && HeaderAt(m', split, rest, true, 0)
  {
    Overrun(s, size);
    StoredBelow(s, m, size, m', split, rest);
  }

  lemma {:induction false} StoredBelow(s: State, m: seq<byte>, size: u32, m': seq<byte>, split: nat, rest: u32)
    requires Inv(s) && |m| == 0x1_0000_0000 && MAX_REQUEST < size < 0x1_0000_0000 - 40
    requires split == s.current + 12 + size - 0x1_0000_0000 && rest == 0x1_0000_0000 - 24 - size
    requires OverrunStep(s, m, size, m')
    ensures HeaderAt(m', split, rest, true, 0)
  {
    HeapEnds(s);
    var m1 := NoPages(s, m, size, m');
    CarvedBelow(m1, s.current, size, m', split, rest);
    SplitLandsBelow(m1, s.current, size, split, rest);
  }

  // The block of no pages that is split.
  lemma {:induction false} NoPages(s: State, m: seq<byte>, size: u32, m': seq<byte>) returns (m1: seq<byte>)
    requires Inv(s) && MAX_REQUEST < size < 0x1_0000_0000 - 40 && OverrunStep(s, m, size, m')
    ensures ExtendStep(m, m1, s.blocks, s.current, 0) && CarvedAt(m1, s.current, size, m')
    ensures |m1| == |m| && HeaderAt(m1, s.current, 0xFFFF_FFF4, true, 0) && Pages(size) == 0
  {
    NoneTaken(size);
    m1 := NewBlock(s, m, size, m');
  }

  lemma NoneTaken(size: u32)
    requires MAX_REQUEST < size < 0x1_0000_0000 - 40
    ensures Pages(size) == 0 && Wrap(Pages(size) * 4096 - 12) == 0xFFFF_FFF4
  {
    PagesCover(size);
  }

  lemma CarvedBelow(m: seq<byte>, blk: nat, size: u32, m': seq<byte>, split: nat, rest: u32)
    requires blk <= 0x8000_0000 && MAX_REQUEST < size < 0x1_0000_0000 - 40
    requires split == blk + 12 + size - 0x1_0000_0000 && rest == 0x1_0000_0000 - 24 - size
    requires HeaderAt(m, blk, 0xFFFF_FFF4, true, 0) && CarvedAt(m, blk, size, m')
    ensures split < blk && split + 12 <= blk && m' == SplitBytes(m, blk, size, split, rest)
  {
    OverrunSums(blk, size, split, rest);
  }

  lemma OverrunSums(current: nat, size: u32, split: nat, rest: u32)
    requires current <= 0x8000_0000 && MAX_REQUEST < size < 0x1_0000_0000 - 40
    requires split == current + 12 + size - 0x1_0000_0000 && rest == 0x1_0000_0000 - 24 - size
    ensures Wrap(current + 12 + size) == split && Wrap(size + 28) == size + 28
    ensures Wrap(0xFFFF_FFF4 - size - 12) == rest && Wrap(0 * 4096 - 12) == 0xFFFF_FFF4
  {
  }

  /** The list with its last block marked free. */
  function LastFreed(bs: seq<Block>): seq<Block>
    requires bs != []
  {
    bs[|bs| - 1 := bs[|bs| - 1].(free := true)]
  }

  /** Aimed at the last block's own header, the stores mark that block free and change nothing else in
      the list: when it was free, nothing at all. */
  lemma {:induction false} OverrunOnLast(s: State, m: seq<byte>, size: u32, m': seq<byte>)
    requires Inv(s) && Represents(m, s.blocks) && |m| == 0x1_0000_0000 && s.blocks != []
    requires 16 < s.blocks[|s.blocks| - 1].size < 4084 && size == 0x1_0000_0000 - 24 - s.blocks[|s.blocks| - 1].size
    requires OverrunStep(s, m, size, m')
    ensures !Fits(s, size) && Represents(m', LastFreed(s.blocks))
    ensures var (s', p) := Malloc(s, size);
      p == s.current + 12 && s'.current == s.current && s'.frames == s.frames && s'.taken == s.taken
  {
    var b := s.blocks[|s.blocks| - 1];
    Overrun(s, size);
    HeapEnds(s);
    var m1 := NoPages(s, m, size, m');
    CarvedBelow(m1, s.current, size, m', b.addr, b.size);
    NothingTaken(s, size);
    LastRewritten(s, m, m1, m', size);
  }

  lemma {:induction false} NothingTaken(s: State, size: u32)
    requires Pages(size) == 0
    ensures Expand(s, size).0.frames == s.frames && Expand(s, size).0.taken == s.taken
  {
    OnePage(s.frames);
    assert s.taken + (s.frames.used - s.frames.used) == s.taken;
  }

  lemma {:induction false} LastRewritten(s: State, m: seq<byte>, m1: seq<byte>, m': seq<byte>, size: u32)
    requires Inv(s) && Represents(m, s.blocks) && s.blocks != [] && |m| == 0x1_0000_0000
    requires var b := s.blocks[|s.blocks| - 1];
      && b.size < 0x1_0000_0000 && b.addr + 12 <= s.current && s.current + 12 <= |m|
      && ExtendStep(m, m1, s.blocks, s.current, 0) && Load32(m1, s.current + 8) == 0
      && m' == SplitBytes(m1, s.current, size, b.addr, b.size)
    ensures Represents(m', LastFreed(s.blocks))
  {
    var bs, b := s.blocks, s.blocks[|s.blocks| - 1];
    var m0 :| ExtendWrites(m, m0, m1, bs, s.current, 0);
    SplitIs(m1, s.current, size, b.addr, b.size);
    var m2 := SplitOff(m1, b.addr, b.size, 0);
    HeaderKept(m2, m', s.current, s.current + 12, b.addr, b.size, true, 0);
    LastMarked(m, m0, m1, m2, m', bs, KHEAP_START, s.current);
  }

  lemma {:induction false} LastMarked(m: seq<byte>, m0: seq<byte>, m1: seq<byte>, m2: seq<byte>, m': seq<byte>,
                                      bs: seq<Block>, start: nat, end: nat)
    requires Tiles(bs, start, end) && Represents(m, bs) && bs != []
    requires var b := bs[|bs| - 1];
      && Changed(m, m0, end, end + 12) && Changed(m0, m1, b.addr, b.addr + 12)
      && Changed(m1, m2, b.addr, b.addr + 12) && Changed(m2, m', end, end + 12)
      && HeaderAt(m', b.addr, b.size, true, 0)
    ensures Represents(m', LastFreed(bs))
  {
    var n := |bs| - 1;
    assert Spells(m', LastFreed(bs), n);
    forall i: nat | i < n
      ensures Spells(m', LastFreed(bs), i)
    {
      assert Spells(m, bs, i);
      TilesOrdered(bs, start, end, i, n);
      BelowKept(m, m0, m1, m2, m', end, bs[n].addr, bs[i], AddrAt(bs, i + 1));
    }
  }

  // A header below both places written.
  lemma BelowKept(m: seq<byte>, m0: seq<byte>, m1: seq<byte>, m2: seq<byte>, m': seq<byte>, blk: nat, last: nat,
                  c: Block, next: nat)
    requires HeaderAt(m, c.addr, c.size, c.free, next) && c.addr + 12 <= last <= blk
    requires Changed(m, m0, blk, blk + 12) && Changed(m0, m1, last, last + 12)
    requires Changed(m1, m2, last, last + 12) && Changed(m2, m', blk, blk + 12)
    ensures HeaderAt(m', c.addr, c.size, c.free, next)
  {
    HeaderKept(m, m0, blk, blk + 12, c.addr, c.size, c.free, next);
    HeaderKept(m0, m1, last, last + 12, c.addr, c.size, c.free, next);
    HeaderKept(m1, m2, last, last + 12, c.addr, c.size, c.free, next);
    HeaderKept(m2, m', blk, blk + 12, c.addr, c.size, c.free, next);
  }

  /** When the last block is live, the heap that is left hands it out again: kmalloc of its size returns
      the payload its owner never freed. */
  lemma {:induction false} HandsOutTwice(s: State, m: seq<byte>, size: u32, m': seq<byte>)
    requires Inv(s) && Represents(m, s.blocks) && |m| == 0x1_0000_0000 && s.blocks != []
    requires var b := s.blocks[|s.blocks| - 1];
      && !b.free && 16 < b.size < 4084 && size == 0x1_0000_0000 - 24 - b.size
      && FirstFit(s.blocks, b.size) == |s.blocks|
    requires OverrunStep(s, m, size, m')
    ensures var b := s.blocks[|s.blocks| - 1]; var left := s.(blocks := LastFreed(s.blocks));
      && b.Payload() in Live(s.blocks) && Malloc(s, size).1 != 0 && Malloc(s, size).0.current == left.current
      && Represents(m', left.blocks) && Inv(left) && Malloc(left, b.size).1 == b.Payload()
  {
    OverrunOnLast(s, m, size, m');
    var bs, n := s.blocks, |s.blocks| - 1;
    LiveIs(bs, KHEAP_START, s.current, bs[n].Payload());
    MarkTiles(bs, KHEAP_START, s.current);
    FoundLast(bs);
  }

  lemma FoundLast(bs: seq<Block>)
    requires bs != [] && FirstFit(bs, bs[|bs| - 1].size) == |bs|
    ensures FirstFit(LastFreed(bs), bs[|bs| - 1].size) == |bs| - 1
  {
    var n, r := |bs| - 1, LastFreed(bs);
    var k := FirstFit(r, bs[n].size);
    assert r[n].free && r[n].size >= bs[n].size;
  }

  lemma MarkTiles(bs: seq<Block>, start: nat, end: nat)
    requires Tiles(bs, start, end) && bs != []
    ensures Tiles(LastFreed(bs), start, end)
  {
    var r := LastFreed(bs);
    forall i | 0 <= i < |r| - 1
      ensures r[i].End() == r[i + 1].addr
    {
      assert bs[i].End() == bs[i + 1].addr;
    }
  }

  // ---------------------------------------------------------------- runs from an empty heap

  // Two blocks in one page, the second of them free.
  lemma {:induction false} OneTaken(f: Pmm.Frames)
    requires Pmm.Alloc(f).1 != 0 && Inv(Empty(f))
    ensures var (s, p) := Malloc(Empty(f), 16);
      && p == 0x40_000C && s.current == 0x40_1000 && Inv(s)
      && s.blocks == [Block(0x40_0000, 16, false), Block(0x40_001C, 4056, true)]
  {
    FirstBlock(f, 16);
    MallocCorrect(Empty(f), 16);
  }

  /** kmalloc(16), kmalloc(0xFFFFF010): the list in memory is the one of before and tiles the heap, and
      the pointer returned is not in it. */
  lemma {:induction false} OverrunUnseen(f: Pmm.Frames, m: seq<byte>, m': seq<byte>)
    requires Pmm.Alloc(f).1 != 0 && Inv(Empty(f)) && |m| == 0x1_0000_0000
    requires Represents(m, Malloc(Empty(f), 16).0.blocks) && OverrunStep(Malloc(Empty(f), 16).0, m, 0xFFFF_F010, m')
    ensures var s := Malloc(Empty(f), 16).0; var (s', q) := Malloc(s, 0xFFFF_F010);
      && Carries(m', s.blocks, KHEAP_START, s'.current, 0) && q == 0x40_100C
      && !Sound(m', KHEAP_START, s'.current, q)
  {
    OneTaken(f);
    var s := Malloc(Empty(f), 16).0;
    OverrunOnLast(s, m, 0xFFFF_F010, m');
    assert LastFreed(s.blocks) == s.blocks;
    SoundIffFits(s, m, 0xFFFF_F010, m');
  }

  /** kmalloc(16), kmalloc(4056), kmalloc(0xFFFFF010), kmalloc(4056): the second and the fourth call
      return the same pointer, with no kfree in between. */
  lemma {:induction false} HandedOutTwice(f: Pmm.Frames, m: seq<byte>, m': seq<byte>)
    requires Pmm.Alloc(f).1 != 0 && Inv(Empty(f)) && |m| == 0x1_0000_0000
    requires var s := Malloc(Malloc(Empty(f), 16).0, 4056).0;
      Represents(m, s.blocks) && OverrunStep(s, m, 0xFFFF_F010, m')
    ensures var (s, q) := Malloc(Malloc(Empty(f), 16).0, 4056);
      q == 0x40_0028 && q in Live(s.blocks) && s.blocks != []
      && var left := s.(blocks := LastFreed(s.blocks));
      Represents(m', left.blocks) && Inv(left) && Malloc(left, 4056).1 == q
  {
    OneTaken(f);
    var s1 := Malloc(Empty(f), 16).0;
    SecondOfTwo(s1.blocks, 4056);
    var s := Malloc(s1, 4056).0;
    MallocCorrect(s1, 4056);
    assert s.blocks == [Block(0x40_0000, 16, false), Block(0x40_001C, 4056, false)];
    HandsOutTwice(s, m, 0xFFFF_F010, m');
  }

  /** From an empty heap, kmalloc(4084) and then kmalloc(0xFFFFF000): the second call takes no page,
      returns a pointer past the heap, and stores a header into the first payload, whatever its
      owner had there. */
  lemma {:induction false} OverrunRun(f: Pmm.Frames, m: seq<byte>, m': seq<byte>)
    requires Pmm.Alloc(f).1 != 0 && Inv(Empty(f)) && |m| == 0x1_0000_0000
    requires OverrunStep(Malloc(Empty(f), 4084).0, m, 0xFFFF_F000, m')
    ensures var (s, p) := Malloc(Empty(f), 4084); var (s', q) := Malloc(s, 0xFFFF_F000);
      && p == 0x40_000C && Live(s.blocks) == map[p := 4084] && s.current == 0x40_1000 && q == 0x40_100C
      && HeaderAt(m', p, 0xFE8, true, 0) && (m[p + 4] != 1 ==> !PayloadsKept(m, m', Live(s.blocks)))
  {
    var (s, p) := Malloc(Empty(f), 4084);
    OnePageFull(f);
    OverrunStores(s, m, 0xFFFF_F000, m', p, 0xFE8);
    HeaderShows(m, m', p, 0xFE8, Live(s.blocks));
  }

  // A free header in a payload that had another byte in its fifth place.
  lemma HeaderShows(m: seq<byte>, m': seq<byte>, p: nat, size: nat, live: map<nat, nat>)
    requires HeaderAt(m', p, size, true, 0) && p + 12 <= |m| && p in live && 12 <= live[p]
    ensures m[p + 4] != 1 ==> !PayloadsKept(m, m', live)
  {
    if m[p + 4] != 1 {
      assert !SameOn(m, m', p, live[p]) by {
        assert m'[p + 4] != m[p + 4];
      }
    }
  }

  lemma {:induction false} OnePageFull(f: Pmm.Frames)
    requires Pmm.Alloc(f).1 != 0 && Inv(Empty(f))
    ensures var (s, p) := Malloc(Empty(f), 4084);
      p == 0x40_000C && Inv(s) && Live(s.blocks) == map[p := 4084] && s.current == 0x40_1000
  {
    FirstBlock(f, 4084);
    assert Malloc(Empty(f), 4084).0.blocks == [Block(KHEAP_START, 4084, false)];
    LiveOne(Block(KHEAP_START, 4084, false));
    MallocCorrect(Empty(f), 4084);
  }
}
