/** The kernel heap of src/mm/kmalloc.c as a list of blocks, and the bytes that carry it: every
    block is a 12-byte header followed by its payload, in one address space. */
module BlockList {
  import opened Machine
  import Pmm

  const KHEAP_START: nat := 0x0040_0000

  /** The largest request whose page computation does not wrap. */
  const MAX_REQUEST: nat := 0x1_0000_0000 - 12 - 4096

  datatype Block = Block(addr: nat, size: nat, free: bool)
  {
    function End(): nat { addr + 12 + size }
    function Payload(): nat { addr + 12 }
  }

  // ---------------------------------------------------------------- block lists

  /** The blocks cover [start, end) exactly, in increasing address order. */
  predicate Tiles(bs: seq<Block>, start: nat, end: nat) {
    && (bs == [] ==> start == end)
    && (bs != [] ==> bs[0].addr == start && bs[|bs| - 1].End() == end)
    && (forall i {:trigger bs[i].End()} :: 0 <= i < |bs| - 1 ==> bs[i].End() == bs[i + 1].addr)
  }

  lemma {:induction false} TilesOrdered(bs: seq<Block>, start: nat, end: nat, i: nat, j: nat)
    requires Tiles(bs, start, end)
    requires i < j < |bs|
    ensures start <= bs[i].addr && bs[i].End() <= bs[j].addr && bs[j].End() <= end
    decreases j, |bs| - i - j
  {
    TilesBounds(bs, start, end, i);
    TilesBounds(bs, start, end, j);
    if i < j - 1 {
      TilesOrdered(bs, start, end, i, j - 1);
    }
    assert bs[j - 1].End() == bs[j].addr;
  }

  lemma {:induction false} TilesBounds(bs: seq<Block>, start: nat, end: nat, i: nat)
    requires Tiles(bs, start, end) && i < |bs|
    ensures start <= bs[i].addr && bs[i].End() <= end
  {
    Rises(bs, start, end, 0, i);
    Rises(bs, start, end, i, |bs| - 1);
  }

  lemma {:induction false} Rises(bs: seq<Block>, start: nat, end: nat, i: nat, j: nat)
    requires Tiles(bs, start, end) && i <= j < |bs|
    ensures bs[i].addr <= bs[j].addr && bs[i].End() <= bs[j].End()
    decreases j - i
  {
    if i < j {
      Rises(bs, start, end, i + 1, j);
      assert bs[i].End() == bs[i + 1].addr;
    }
  }

  /** find_free: the first free block large enough, |bs| when there is none. */
  function FirstFit(bs: seq<Block>, size: nat, from: nat := 0): (k: nat)
    requires from <= |bs|
    ensures from <= k <= |bs|
    ensures k < |bs| ==> bs[k].free && bs[k].size >= size
    ensures forall j :: from <= j < k ==> !(bs[j].free && bs[j].size >= size)
    decreases |bs| - from
  {
    if from == |bs| || (bs[from].free && bs[from].size >= size) then from else FirstFit(bs, size, from + 1)
  }

  predicate Splits(b: Block, size: nat) {
    b.size > size + 12 + 16
  }

  /** Block k handed out for a request, the rest split off when it is large enough. */
  function Place(bs: seq<Block>, k: nat, size: nat): seq<Block>
    requires k < |bs| && size <= bs[k].size
  {
    var b := bs[k];
    if Splits(b, size)
    then bs[..k] + [Block(b.addr, size, false), Block(b.addr + 12 + size, b.size - size - 12, true)] + bs[k + 1..]
    else bs[k := b.(free := false)]
  }

  /** Block k freed, and joined with its successor when that one is free. */
  function Release(bs: seq<Block>, k: nat): seq<Block>
    requires k < |bs|
  {
    var b := bs[k];
    if k + 1 < |bs| && bs[k + 1].free
    then bs[..k] + [Block(b.addr, b.size + 12 + bs[k + 1].size, true)] + bs[k + 2..]
    else bs[k := b.(free := true)]
  }

  /** The pages that hold a header and a payload. */
  function PagesFor(size: nat): nat {
    (size + 12 + 4095) / 4096
  }

  /** The pages the code takes, `(sizeof(block_t) + size + PAGE_SIZE - 1) / PAGE_SIZE` in 32 bits. */
  function Pages(size: u32): nat {
    Wrap(Wrap(12 + size) + 4096 - 1) / 4096
  }

  /** The list with a block of the new pages, its size in 32 bits. */
  function Extend(bs: seq<Block>, current: nat, pages: nat): seq<Block> {
    bs + [Block(current, Wrap(pages * 4096 - 12), true)]
  }

  lemma ExtendSize(pages: nat)
    requires 1 <= pages < 0x10_0000
    ensures Wrap(pages * 4096 - 12) == pages * 4096 - 12
  {
    WrapSmall(pages * 4096 - 12);
  }

  lemma PlaceTiles(bs: seq<Block>, start: nat, end: nat, k: nat, size: nat)
    requires Tiles(bs, start, end) && k < |bs| && size <= bs[k].size
    ensures Tiles(Place(bs, k, size), start, end)
  {
    var r := Place(bs, k, size);
    if Splits(bs[k], size) {
      forall i | 0 <= i < |r| - 1
        ensures r[i].End() == r[i + 1].addr
      {
        if i < k {
          assert bs[i].End() == bs[i + 1].addr;
        } else if i > k {
          assert bs[i - 1].End() == bs[k].End() || r[i] == bs[i - 1];
          assert i < |bs|;
          assert bs[i - 1].End() == bs[i].addr;
        }
      }
    } else {
      forall i | 0 <= i < |r| - 1
        ensures r[i].End() == r[i + 1].addr
      {
        assert bs[i].End() == bs[i + 1].addr;
      }
    }
  }

  lemma ReleaseTiles(bs: seq<Block>, start: nat, end: nat, k: nat)
    requires Tiles(bs, start, end) && k < |bs|
    ensures Tiles(Release(bs, k), start, end)
  {
    var r := Release(bs, k);
    var merged := k + 1 < |bs| && bs[k + 1].free;
    if merged {
      assert bs[k].End() == bs[k + 1].addr;
    }
    forall i | 0 <= i < |r| - 1
      ensures r[i].End() == r[i + 1].addr
    {
      var j := if merged && i > k then i + 1 else i;
      assert bs[j].End() == bs[j + 1].addr;
      if merged && i == k {
        assert bs[k + 1].End() == bs[k + 2].addr;
      }
    }
  }

  lemma ExtendTiles(bs: seq<Block>, start: nat, end: nat, pages: nat)
    requires Tiles(bs, start, end) && 1 <= pages < 0x10_0000
    ensures Tiles(Extend(bs, end, pages), start, end + pages * 4096)
  {
    ExtendSize(pages);
    var r := Extend(bs, end, pages);
    forall i | 0 <= i < |r| - 1
      ensures r[i].End() == r[i + 1].addr
    {
      if i < |bs| - 1 {
        assert bs[i].End() == bs[i + 1].addr;
      }
    }
  }

  // ---------------------------------------------------------------- first fit, undo, coalescing

  /** First fit is lowest address: no earlier block would have done. */
  lemma FirstFitIsLowest(bs: seq<Block>, start: nat, end: nat, size: nat, j: nat)
    requires Tiles(bs, start, end) && j < |bs| && bs[j].free && bs[j].size >= size
    ensures FirstFit(bs, size) < |bs|
    ensures bs[FirstFit(bs, size)].addr <= bs[j].addr
  {
    Rises(bs, start, end, FirstFit(bs, size), j);
  }

  /** Freeing what was just handed out restores the block list, unless an unsplit block is
      followed by a free one: those two are joined. */
  lemma PlaceThenRelease(bs: seq<Block>, k: nat, size: nat)
    requires k < |bs| && bs[k].free && size <= bs[k].size
    ensures var joins := !Splits(bs[k], size) && k + 1 < |bs| && bs[k + 1].free;
      Release(Place(bs, k, size), k) == if joins then Release(bs, k) else bs
    ensures Release(Place(bs, k, size), k) == bs <==>
      Splits(bs[k], size) || k + 1 == |bs| || !bs[k + 1].free
  {
    var p := Place(bs, k, size);
    if Splits(bs[k], size) {
      assert p[k + 2..] == bs[k + 1..];
      assert p[..k] == bs[..k];
      assert Release(p, k) == bs[..k] + [bs[k]] + bs[k + 1..];
    } else if k + 1 < |bs| && bs[k + 1].free {
      assert p[..k] == bs[..k] && p[k + 2..] == bs[k + 2..];
      assert |Release(p, k)| == |bs| - 1;
    }
  }

  /** Coalescing looks forward only: a freed block that follows a free one stays apart from it.
      The freed block ends up next to another free block exactly then, or when the block after
      the one it absorbed is free too. */
  lemma ReleaseLeavesNeighbours(bs: seq<Block>, k: nat)
    requires k < |bs| && !bs[k].free
    ensures k > 0 ==> (Release(bs, k)[k - 1].free && Release(bs, k)[k].free <==> bs[k - 1].free)
    ensures k + 1 < |Release(bs, k)| ==>
      (Release(bs, k)[k + 1].free <==> k + 2 < |bs| && bs[k + 1].free && bs[k + 2].free)
  {
  }

  /** The pages taken for a request hold its header and payload exactly when the 32-bit computation
      did not wrap; otherwise it takes one page or none. */
  lemma PagesCover(size: u32)
    ensures Pages(size) * 4096 >= 12 + size <==> size <= MAX_REQUEST
    ensures size <= MAX_REQUEST ==> 1 <= Pages(size) == PagesFor(size) < 0x10_0000
    ensures size > MAX_REQUEST ==> Pages(size) == if size <= 0x1_0000_0000 - 12 then 0 else 1
  {
  }

  // ---------------------------------------------------------------- live payloads

  /** What the clients own: payload address to payload size. */
  function Live(bs: seq<Block>): map<nat, nat> {
    if bs == [] then map[] else
    var b := bs[|bs| - 1];
    if b.free then Live(bs[..|bs| - 1]) else Live(bs[..|bs| - 1])[b.Payload() := b.size]
  }

  lemma {:induction false} LiveConcat(a: seq<Block>, b: seq<Block>)
    ensures Live(a + b) == Live(a) + Live(b)
  {
    if b == [] {
      assert a + b == a;
    } else {
      LiveConcat(a, b[..|b| - 1]);
      assert (a + b)[..|a + b| - 1] == a + b[..|b| - 1];
    }
  }

  lemma {:induction false} LiveIs(bs: seq<Block>, start: nat, end: nat, p: nat)
    requires Tiles(bs, start, end)
    ensures p in Live(bs) <==> exists i :: 0 <= i < |bs| && !bs[i].free && bs[i].Payload() == p
    ensures forall i :: 0 <= i < |bs| && !bs[i].free && bs[i].Payload() == p ==>
              p in Live(bs) && Live(bs)[p] == bs[i].size
  {
    if bs != [] {
      var n := |bs| - 1;
      var init := bs[..n];
      if n > 0 {
        assert bs[n - 1].End() == bs[n].addr;
        forall i | 0 <= i < n - 1
          ensures init[i].End() == init[i + 1].addr
        {
          assert bs[i].End() == bs[i + 1].addr;
        }
      }
      LiveIs(init, start, bs[n].addr, p);
      forall i | 0 <= i < n
        ensures bs[i].Payload() != bs[n].Payload()
      {
        TilesOrdered(bs, start, end, i, n);
      }
    }
  }

  /** Distinct live payloads do not overlap, and none reaches outside the heap. */
  lemma LiveDisjoint(bs: seq<Block>, start: nat, end: nat, p: nat, q: nat)
    requires Tiles(bs, start, end) && p in Live(bs) && q in Live(bs) && p < q
    ensures start + 12 <= p && p + Live(bs)[p] + 12 <= q && q + Live(bs)[q] <= end
  {
    LiveIs(bs, start, end, p);
    LiveIs(bs, start, end, q);
    var i :| 0 <= i < |bs| && !bs[i].free && bs[i].Payload() == p;
    var j :| 0 <= j < |bs| && !bs[j].free && bs[j].Payload() == q;
    if j <= i {
      Rises(bs, start, end, j, i);
    }
    TilesOrdered(bs, start, end, i, j);
  }

  lemma {:induction false} LiveSplit(bs: seq<Block>, k: nat)
    requires k < |bs|
    ensures Live(bs) == Live(bs[..k]) + Live([bs[k]]) + Live(bs[k + 1..])
  {
    assert bs == bs[..k] + [bs[k]] + bs[k + 1..];
    LiveConcat(bs[..k], [bs[k]]);
    LiveConcat(bs[..k] + [bs[k]], bs[k + 1..]);
  }

  lemma LivePair(a: Block, b: Block)
    requires !a.free && b.free
    ensures Live([a, b]) == map[a.Payload() := a.size]
  {
    LiveConcat([a], [b]);
    assert [a, b] == [a] + [b];
  }

  // The payload of block k belongs to no other block.
  lemma OthersLack(bs: seq<Block>, start: nat, end: nat, k: nat)
    requires Tiles(bs, start, end) && k < |bs|
    ensures bs[k].Payload() !in Live(bs[..k]) && bs[k].Payload() !in Live(bs[k + 1..])
  {
    LackedBy(bs, start, end, k, 0, k);
    LackedBy(bs, start, end, k, k + 1, |bs|);
    assert bs[0..k] == bs[..k] && bs[k + 1..|bs|] == bs[k + 1..];
  }

  lemma {:induction false} LackedBy(bs: seq<Block>, start: nat, end: nat, k: nat, lo: nat, hi: nat)
    requires Tiles(bs, start, end) && k < |bs|
    requires lo <= hi <= |bs| && !(lo <= k < hi)
    ensures bs[k].Payload() !in Live(bs[lo..hi])
    decreases hi - lo
  {
    if lo < hi {
      LackedBy(bs, start, end, k, lo, hi - 1);
      var s := bs[lo..hi];
      assert s[..|s| - 1] == bs[lo..hi - 1] && s[|s| - 1] == bs[hi - 1];
      if k < hi - 1 {
        TilesOrdered(bs, start, end, k, hi - 1);
      } else {
        TilesOrdered(bs, start, end, hi - 1, k);
      }
    }
  }

  lemma InsertMiddle(l: map<nat, nat>, r: map<nat, nat>, p: nat, n: nat)
    requires p !in r
    ensures l + map[p := n] + r == (l + map[] + r)[p := n]
  {
  }

  lemma RemoveMiddle(l: map<nat, nat>, r: map<nat, nat>, p: nat, n: nat)
    requires p !in l && p !in r
    ensures (l + map[p := n] + r) - {p} == l + map[] + r
  {
  }

  // What is live after block k was replaced by a run of blocks.
  lemma {:induction false} LiveReplaced(bs: seq<Block>, k: nat, mid: seq<Block>, rest: nat)
    requires k < |bs| && k <= rest <= |bs|
    ensures Live(bs[..k] + mid + bs[rest..]) == Live(bs[..k]) + Live(mid) + Live(bs[rest..])
  {
    LiveConcat(bs[..k], mid);
    LiveConcat(bs[..k] + mid, bs[rest..]);
  }

  lemma LiveOne(b: Block)
    ensures Live([b]) == if b.free then map[] else map[b.Payload() := b.size]
  {
    assert [b][..0] == [];
  }

  // The blocks that stand where block k stood once it is handed out.
  function Placed(b: Block, size: nat): seq<Block>
    requires size <= b.size
  {
    if Splits(b, size) then [Block(b.addr, size, false), Block(b.addr + 12 + size, b.size - size - 12, true)]
    else [b.(free := false)]
  }

  lemma PlaceParts(bs: seq<Block>, k: nat, size: nat)
    requires k < |bs| && size <= bs[k].size
    ensures Place(bs, k, size) == bs[..k] + Placed(bs[k], size) + bs[k + 1..]
  {
  }

  lemma {:induction false} PlacedLive(b: Block, size: nat)
    requires size <= b.size
    ensures Live(Placed(b, size)) == map[b.Payload() := if Splits(b, size) then size else b.size]
  {
    if Splits(b, size) {
      LivePair(Placed(b, size)[0], Placed(b, size)[1]);
    } else {
      LiveOne(Placed(b, size)[0]);
    }
  }

  lemma {:induction false} LivePlaced(bs: seq<Block>, k: nat, size: nat)
    requires k < |bs| && size <= bs[k].size
    ensures Live(Place(bs, k, size)) ==
            Live(bs[..k]) + map[bs[k].Payload() := if Splits(bs[k], size) then size else bs[k].size] + Live(bs[k + 1..])
  {
    PlacedLive(bs[k], size);
    LiveReplaced(bs, k, Placed(bs[k], size), k + 1);
    PlaceParts(bs, k, size);
  }

  /** Handing out block k makes exactly its payload live. */
  lemma {:induction false} PlaceLive(bs: seq<Block>, start: nat, end: nat, k: nat, size: nat)
    requires Tiles(bs, start, end) && k < |bs| && bs[k].free && size <= bs[k].size
    ensures bs[k].Payload() !in Live(bs)
    ensures Live(Place(bs, k, size)) == Live(bs)[bs[k].Payload() := if Splits(bs[k], size) then size else bs[k].size]
  {
    var b := bs[k];
    OthersLack(bs, start, end, k);
    LiveSplit(bs, k);
    LiveOne(b);
    LivePlaced(bs, k, size);
    InsertMiddle(Live(bs[..k]), Live(bs[k + 1..]), b.Payload(), if Splits(b, size) then size else b.size);
  }

  /** Freeing block k makes exactly its payload not live. */
  lemma {:induction false} ReleaseLive(bs: seq<Block>, start: nat, end: nat, k: nat)
    requires Tiles(bs, start, end) && k < |bs| && !bs[k].free
    ensures bs[k].Payload() in Live(bs) && Live(bs)[bs[k].Payload()] == bs[k].size
    ensures Live(Release(bs, k)) == Live(bs) - {bs[k].Payload()}
  {
    OthersLack(bs, start, end, k);
    LiveSplit(bs, k);
    LiveOne(bs[k]);
    RemoveMiddle(Live(bs[..k]), Live(bs[k + 1..]), bs[k].Payload(), bs[k].size);
    var merged := k + 1 < |bs| && bs[k + 1].free;
    var rest := if merged then k + 2 else k + 1;
    var mid := [Release(bs, k)[k]];
    LiveOne(mid[0]);
    LiveReplaced(bs, k, mid, rest);
    assert Release(bs, k) == bs[..k] + mid + bs[rest..];
    if merged {
      SkipFree(bs, k + 1);
    }
  }

  lemma {:induction false} SkipFree(bs: seq<Block>, k: nat)
    requires k < |bs| && bs[k].free
    ensures Live(bs[k + 1..]) == Live(bs[k..])
  {
    assert bs[k..] == [bs[k]] + bs[k + 1..];
    LiveConcat([bs[k]], bs[k + 1..]);
    LiveOne(bs[k]);
  }

  lemma ExtendLive(bs: seq<Block>, current: nat, pages: nat)
    ensures Live(Extend(bs, current, pages)) == Live(bs)
  {
    LiveConcat(bs, [Block(current, Wrap(pages * 4096 - 12), true)]);
  }

  // ---------------------------------------------------------------- the allocator as a function

  /** The allocator without its bytes: blocks, the end of the heap, the frame allocator, and the
      frames the heap has taken and never gives back. */
  datatype State = State(blocks: seq<Block>, current: nat, frames: Pmm.Frames, taken: set<nat>)

  ghost predicate Inv(s: State) {
    && Tiles(s.blocks, KHEAP_START, s.current)
    && s.taken <= s.frames.used
    && (forall p | p in s.frames.used :: p < s.frames.total)
    && s.frames.total <= Pmm.MAX_PAGES
    && s.current <= KHEAP_START + 4096 * |s.taken|
  }

  /** n frames taken one by one; those taken before a failure stay taken. */
  function TakePages(f: Pmm.Frames, n: nat): (Pmm.Frames, bool)
    decreases n
  {
    if n == 0 then (f, true) else
    var (f', p) := Pmm.Alloc(f);
    if p == 0 then (f', false) else TakePages(f', n - 1)
  }

  /** expand_heap */
  function Expand(s: State, size: u32): (State, bool) {
    var pages := Pages(size);
    var (f, ok) := TakePages(s.frames, pages);
    var s' := s.(frames := f, taken := s.taken + (f.used - s.frames.used));
    if !ok then (s', false) else
    (s'.(blocks := Extend(s.blocks, s.current, pages), current := s.current + pages * 4096), true)
  }

  /** kmalloc: the new state and the payload address, 0 for NULL. When the heap grew for a request
      whose page count wrapped, the block list is left as it was and no longer speaks for the bytes:
      what they then spell is the subject of HeapBytes.SoundIffFits. */
  function Malloc(s: State, size: u32): (State, nat) {
    if size == 0 then (s, 0) else
    var k := FirstFit(s.blocks, size);
    if k < |s.blocks| then (s.(blocks := Place(s.blocks, k, size)), s.blocks[k].Payload()) else
    var (s', ok) := Expand(s, size);
    if !ok then (s', 0)
    else if size > MAX_REQUEST then (s'.(blocks := s.blocks), s.current + 12)
    else NewBlockFits(size); (s'.(blocks := Place(s'.blocks, k, size)), s'.blocks[k].Payload())
  }

  // The block of the new pages is large enough.
  lemma NewBlockFits(size: u32)
    requires size <= MAX_REQUEST
    ensures size <= Wrap(Pages(size) * 4096 - 12)
  {
    PagesCover(size);
    ExtendSize(Pages(size));
  }

  /** What a caller has to check before kmalloc: the page computation does not wrap, or it wraps to
      one page and there is none, so that kmalloc fails. */
  predicate Fits(s: State, size: u32) {
    size <= MAX_REQUEST || (size > 0x1_0000_0000 - 12 && Pmm.Alloc(s.frames).1 == 0)
  }

  /** The block with the payload at p, |bs| when there is none. */
  function IndexOf(bs: seq<Block>, p: nat, from: nat := 0): (k: nat)
    requires from <= |bs|
    ensures from <= k <= |bs|
    ensures k < |bs| ==> bs[k].Payload() == p && !bs[k].free
    ensures forall j :: from <= j < k ==> !(bs[j].Payload() == p && !bs[j].free)
    decreases |bs| - from
  {
    if from == |bs| || (bs[from].Payload() == p && !bs[from].free) then from else IndexOf(bs, p, from + 1)
  }

  /** kfree of a pointer the client owns. */
  function Free(s: State, p: nat): State {
    var k := IndexOf(s.blocks, p);
    if k < |s.blocks| then s.(blocks := Release(s.blocks, k)) else s
  }

  /** krealloc: the new state and the resulting pointer, 0 for NULL. */
  function Realloc(s: State, p: nat, size: u32): (State, nat)
    requires p == 0 || p in Live(s.blocks)
  {
    if p == 0 then Malloc(s, size)
    else if size == 0 then (Free(s, p), 0)
    else if Live(s.blocks)[p] >= size then (s, p)
    else
      var (s', q) := Malloc(s, size);
      if q == 0 then (s', 0) else (Free(s', p), q)
  }

  lemma {:induction false} TakePagesGrows(f: Pmm.Frames, n: nat)
    requires forall p | p in f.used :: p < f.total
    ensures var (f', ok) := TakePages(f, n);
      && f.used <= f'.used && f'.total == f.total && (forall p | p in f'.used :: p < f.total)
      && (ok ==> |f'.used - f.used| == n)
    decreases n
  {
    if n != 0 {
      var (f1, p) := Pmm.Alloc(f);
      if p != 0 {
        TakePagesGrows(f1, n - 1);
        OneMore(f.used, TakePages(f1, n - 1).0.used, p);
      }
    }
  }

  lemma OneMore(a: set<nat>, b: set<nat>, p: nat)
    requires p !in a && a + {p} <= b
    ensures |b - a| == |b - (a + {p})| + 1
  {
    assert b - a == (b - (a + {p})) + {p};
  }

  lemma {:induction false} Bounded(s: set<nat>, n: nat)
    requires forall p | p in s :: p < n
    ensures |s| <= n
  {
    if n > 0 {
      Bounded(s - {n - 1}, n - 1);
    } else {
      assert s == {};
    }
  }

  // The heap never grows past the frames there are, so its addresses do not wrap.
  lemma {:induction false} HeapEnds(s: State)
    requires Inv(s)
    ensures s.current <= KHEAP_START + 4096 * Pmm.MAX_PAGES
  {
    Bounded(s.taken, s.frames.total);
  }

  lemma {:induction false} ExpandKeepsInv(s: State, size: u32)
    requires Inv(s) && size <= MAX_REQUEST
    ensures Inv(Expand(s, size).0)
    ensures Live(Expand(s, size).0.blocks) == Live(s.blocks)
    ensures var (s', ok) := Expand(s, size); var n := |s.blocks|;
      ok ==>
        && |s'.blocks| == n + 1 && s'.blocks[..n] == s.blocks
        && s'.blocks[n] == Block(s.current, PagesFor(size) * 4096 - 12, true)
  {
    PagesCover(size);
    TakePagesGrows(s.frames, Pages(size));
    var (f, ok) := TakePages(s.frames, Pages(size));
    var more := f.used - s.frames.used;
    assert |s.taken + more| == |s.taken| + |more| by {
      assert s.taken !! more;
    }
    if ok {
      ExtendSize(Pages(size));
      ExtendTiles(s.blocks, KHEAP_START, s.current, Pages(size));
      ExtendLive(s.blocks, s.current, Pages(size));
    }
  }

  // No block of a sound heap is as large as a request that wraps.
  lemma {:induction false} NoneThatLarge(s: State, size: u32)
    requires Inv(s) && size > MAX_REQUEST
    ensures FirstFit(s.blocks, size) == |s.blocks|
  {
    HeapEnds(s);
    var k := FirstFit(s.blocks, size);
    if k < |s.blocks| {
      TilesBounds(s.blocks, KHEAP_START, s.current, k);
    }
  }

  /** kmalloc of a request that fits keeps the blocks tiling the heap; when it succeeds the result is
      a payload that was not live, of at least the size asked for, and nothing else becomes live or
      dies. */
  lemma {:induction false} MallocCorrect(s: State, size: u32)
    requires Inv(s) && Fits(s, size)
    ensures Inv(Malloc(s, size).0)
    ensures var (s', p) := Malloc(s, size);
      if p == 0 then s'.blocks == s.blocks && s'.current == s.current
      else
        && p !in Live(s.blocks)
        && p in Live(s'.blocks) && size <= Live(s'.blocks)[p] <= size + 28
        && Live(s'.blocks) == Live(s.blocks)[p := Live(s'.blocks)[p]]
  {
    var k := FirstFit(s.blocks, size);
    if size > MAX_REQUEST {
      NoneThatLarge(s, size);
      PagesCover(size);
      OnePage(s.frames);
    } else if size != 0 {
      if k < |s.blocks| {
        PlaceInHeap(s, k, size);
      } else {
        ExpandKeepsInv(s, size);
        var (s', ok) := Expand(s, size);
        if ok {
          PlaceInHeap(s', k, size);
        }
      }
    }
  }

  // A request that fits and gets a pointer did not wrap.
  lemma {:induction false} FitsWhenGrown(s: State, size: u32)
    requires Inv(s) && Fits(s, size) && Malloc(s, size).1 != 0
    ensures size <= MAX_REQUEST
  {
    if size > MAX_REQUEST {
      NoneThatLarge(s, size);
      PagesCover(size);
      OnePage(s.frames);
    }
  }

  lemma {:induction false} OnePage(f: Pmm.Frames)
    ensures TakePages(f, 0) == (f, true)
    ensures TakePages(f, 1) == (Pmm.Alloc(f).0, Pmm.Alloc(f).1 != 0)
    ensures Pmm.Alloc(f).1 == 0 && 0 in f.used ==> Pmm.Alloc(f).0 == f
  {
  }

  lemma {:induction false} PlaceInHeap(s: State, k: nat, size: u32)
    requires Inv(s) && k < |s.blocks| && s.blocks[k].free && size <= s.blocks[k].size
    ensures var s' := s.(blocks := Place(s.blocks, k, size)); var p := s.blocks[k].Payload();
      && Inv(s') && p !in Live(s.blocks) && p in Live(s'.blocks) && size <= Live(s'.blocks)[p] <= size + 28
      && Live(s'.blocks) == Live(s.blocks)[p := Live(s'.blocks)[p]]
  {
    PlaceTiles(s.blocks, KHEAP_START, s.current, k, size);
    PlaceLive(s.blocks, KHEAP_START, s.current, k, size);
  }

  /** A request that does not fit gets a pointer all the same: to the end of the heap, which grows by
      one page or none. */
  lemma {:induction false} Overrun(s: State, size: u32)
    requires Inv(s) && !Fits(s, size)
    ensures FirstFit(s.blocks, size) == |s.blocks| && Expand(s, size).1 && Pages(size) <= 1
    ensures var (s', p) := Malloc(s, size); p == s.current + 12 && s'.current == s.current + 4096 * Pages(size)
  {
    NoneThatLarge(s, size);
    PagesCover(size);
    OnePage(s.frames);
  }

  /** kmalloc takes the lowest free block that fits, and grows the heap only when none does: then at
      its end, by the fewest pages that hold the block exactly when the page count did not wrap. */
  lemma {:induction false} MallocPlaces(s: State, size: u32, j: nat)
    requires Inv(s) && 0 < size && j < |s.blocks| && s.blocks[j].free && s.blocks[j].size >= size
    ensures var (s', p) := Malloc(s, size);
      p != 0 && p <= s.blocks[j].Payload() && s'.current == s.current && s'.frames == s.frames
  {
    FirstFitIsLowest(s.blocks, KHEAP_START, s.current, size, j);
  }

  lemma {:induction false} MallocGrows(s: State, size: u32)
    requires Inv(s) && 0 < size
    requires forall j :: 0 <= j < |s.blocks| ==> !(s.blocks[j].free && s.blocks[j].size >= size)
    ensures var (s', p) := Malloc(s, size); var grown := s'.current - s.current;
      p != 0 ==>
        && p == s.current + 12 && grown == 4096 * Pages(size) && |s'.taken| == |s.taken| + Pages(size)
        && (size + 12 <= grown < size + 12 + 4096 <==> size <= MAX_REQUEST)
  {
    PagesCover(size);
    ExpandTakes(s, size);
  }

  lemma {:induction false} ExpandTakes(s: State, size: u32)
    requires Inv(s)
    ensures var (s', ok) := Expand(s, size); ok ==> |s'.taken| == |s.taken| + Pages(size)
  {
    TakePagesGrows(s.frames, Pages(size));
    var more := TakePages(s.frames, Pages(size)).0.used - s.frames.used;
    assert s.taken !! more && |s.taken + more| == |s.taken| + |more|;
  }

  /** kfree keeps the blocks tiling the heap and ends exactly the one payload. */
  lemma {:induction false} FreeCorrect(s: State, p: nat)
    requires Inv(s) && p in Live(s.blocks)
    ensures Inv(Free(s, p))
    ensures Live(Free(s, p).blocks) == Live(s.blocks) - {p}
  {
    LiveIs(s.blocks, KHEAP_START, s.current, p);
    var k := IndexOf(s.blocks, p);
    ReleaseTiles(s.blocks, KHEAP_START, s.current, k);
    ReleaseLive(s.blocks, KHEAP_START, s.current, k);
  }

  /** krealloc to a size that fits moves the one payload to one at least as large as asked for, in
      place when the old one will do; when it fails every payload stays as it was. */
  lemma {:induction false} ReallocCorrect(s: State, p: nat, size: u32)
    requires Inv(s) && (p == 0 || p in Live(s.blocks)) && Fits(s, size)
    ensures Inv(Realloc(s, p, size).0)
    ensures var (s', r) := Realloc(s, p, size); var live := Live(s.blocks);
      if size == 0 then r == 0 && Live(s'.blocks) == live - {p}
      else if r == 0 then Live(s'.blocks) == live
      else
        && (r == p || r !in live)
        && r in Live(s'.blocks) && size <= Live(s'.blocks)[r]
        && Live(s'.blocks) == (live - {p})[r := Live(s'.blocks)[r]]
  {
    LiveNotNull(s.blocks, KHEAP_START, s.current);
    if p == 0 {
      MallocCorrect(s, size);
    } else if size == 0 {
      FreeCorrect(s, p);
    } else if Live(s.blocks)[p] < size {
      ReallocMoves(s, p, size);
    } else {
      assert Live(s.blocks) == (Live(s.blocks) - {p})[p := Live(s.blocks)[p]];
    }
  }

  lemma {:induction false} ReallocMoves(s: State, p: nat, size: u32)
    requires Inv(s) && p in Live(s.blocks) && Fits(s, size)
    ensures var (s', r) := Malloc(s, size); var live := Live(s.blocks);
      && Inv(s') && (r == 0 ==> Live(s'.blocks) == live)
      && (r != 0 ==>
            && r !in live && r != p && r in Live(s'.blocks) && size <= Live(s'.blocks)[r] && Inv(Free(s', p))
            && Live(Free(s', p).blocks) == (live - {p})[r := Live(s'.blocks)[r]])
  {
    MallocCorrect(s, size);
    var (s', r) := Malloc(s, size);
    if r != 0 {
      FreeCorrect(s', p);
      OverwriteRemove(Live(s.blocks), p, r, Live(s'.blocks)[r]);
    }
  }

  lemma OverwriteRemove(live: map<nat, nat>, p: nat, r: nat, n: nat)
    requires p != r
    ensures live[r := n] - {p} == (live - {p})[r := n]
  {
  }

  lemma {:induction false} LiveNotNull(bs: seq<Block>, start: nat, end: nat)
    requires Tiles(bs, start, end)
    ensures 0 !in Live(bs)
  {
    LiveIs(bs, start, end, 0);
  }

  /** When a free block fits, kmalloc followed by kfree is the identity on the block list, but for
      an unsplit block whose successor is free. */
  lemma {:induction false} MallocThenFree(s: State, size: u32)
    requires Inv(s) && 0 < size
    requires FirstFit(s.blocks, size) < |s.blocks|
    ensures var k := FirstFit(s.blocks, size); var (s', p) := Malloc(s, size);
      Free(s', p) == s <==> Splits(s.blocks[k], size) || k + 1 == |s.blocks| || !s.blocks[k + 1].free
  {
    var k := FirstFit(s.blocks, size);
    PlacedIndex(s, k, size);
    PlaceThenRelease(s.blocks, k, size);
  }

  // The block handed out is found again by its payload.
  lemma {:induction false} PlacedIndex(s: State, k: nat, size: u32)
    requires Inv(s) && k < |s.blocks| && size <= s.blocks[k].size
    ensures IndexOf(Place(s.blocks, k, size), s.blocks[k].Payload()) == k
  {
    var bs, p := Place(s.blocks, k, size), s.blocks[k].Payload();
    PlaceTiles(s.blocks, KHEAP_START, s.current, k, size);
    forall j | 0 <= j < k ensures bs[j].Payload() != p {
      TilesOrdered(bs, KHEAP_START, s.current, j, k);
    }
    IndexIs(bs, p, k, 0);
  }

  lemma {:induction false} IndexIs(bs: seq<Block>, p: nat, k: nat, from: nat)
    requires from <= k < |bs| && bs[k].Payload() == p && !bs[k].free
    requires forall j :: from <= j < k ==> bs[j].Payload() != p || bs[j].free
    ensures IndexOf(bs, p, from) == k
    decreases k - from
  {
    if from < k {
      IndexIs(bs, p, k, from + 1);
    }
  }

  // ---------------------------------------------------------------- free neighbours

  predicate NoFreeNeighbours(bs: seq<Block>) {
    forall i :: 0 <= i < |bs| - 1 ==> !FreePair(bs, i)
  }

  predicate FreePair(bs: seq<Block>, i: nat)
    requires i + 1 < |bs|
  {
    bs[i].free && bs[i + 1].free
  }

  /** kmalloc never leaves two free blocks side by side that were not so before. */
  lemma {:induction false} MallocKeepsCoalesced(s: State, size: u32)
    requires Inv(s) && Fits(s, size) && NoFreeNeighbours(s.blocks)
    ensures NoFreeNeighbours(Malloc(s, size).0.blocks)
  {
    MallocCorrect(s, size);
    if size != 0 && Malloc(s, size).1 != 0 {
      var k := FirstFit(s.blocks, size);
      if k < |s.blocks| {
        assert k + 1 < |s.blocks| ==> !FreePair(s.blocks, k);
        PlaceCoalesced(s.blocks, k, size);
      } else {
        FitsWhenGrown(s, size);
        NewBlockFits(size);
        ExtendCoalesced(s.blocks, s.current, Pages(size));
        PlaceCoalesced(Expand(s, size).0.blocks, k, size);
      }
    }
  }

  // Only the last two blocks of an extended list can be a free pair.
  lemma ExtendCoalesced(bs: seq<Block>, current: nat, pages: nat)
    requires NoFreeNeighbours(bs)
    ensures forall i :: 0 <= i < |bs| && i + 1 != |bs| ==> !FreePair(Extend(bs, current, pages), i)
  {
    forall i | 0 <= i < |bs| && i + 1 != |bs|
      ensures !FreePair(Extend(bs, current, pages), i)
    {
      assert !FreePair(bs, i);
    }
  }

  lemma {:induction false} PlaceCoalesced(bs: seq<Block>, k: nat, size: u32)
    requires k < |bs| && bs[k].free && size <= bs[k].size
    requires forall i :: 0 <= i < |bs| - 1 && i != k && i + 1 != k ==> !FreePair(bs, i)
    requires k + 1 < |bs| ==> !bs[k + 1].free
    ensures NoFreeNeighbours(Place(bs, k, size))
  {
    var r := Place(bs, k, size);
    forall i | 0 <= i < |r| - 1
      ensures !FreePair(r, i)
    {
      if i + 1 < k {
        assert !FreePair(bs, i);
      } else if i > k && |r| == |bs| {
        assert !FreePair(bs, i);
      } else if i > k + 1 {
        assert !FreePair(bs, i - 1);
      }
    }
  }

  /** kfree leaves no two free blocks side by side exactly when the block before the freed one was
      not free: it looks forward only. */
  lemma {:induction false} FreeKeepsCoalesced(s: State, p: nat)
    requires Inv(s) && NoFreeNeighbours(s.blocks) && p in Live(s.blocks)
    ensures IndexOf(s.blocks, p) < |s.blocks|
    ensures var k := IndexOf(s.blocks, p); NoFreeNeighbours(Free(s, p).blocks) <==> k == 0 || !s.blocks[k - 1].free
  {
    LiveIs(s.blocks, KHEAP_START, s.current, p);
    var bs, k := s.blocks, IndexOf(s.blocks, p);
    var r := Release(bs, k);
    if k > 0 && bs[k - 1].free {
      assert FreePair(r, k - 1);
    } else {
      forall i | 0 <= i < |r| - 1
        ensures !FreePair(r, i)
      {
        if i + 1 < k {
          assert !FreePair(bs, i);
        } else if i > k && |r| == |bs| {
          assert !FreePair(bs, i);
        } else if i > k {
          assert !FreePair(bs, i + 1);
        } else if i == k && k + 1 < |bs| && bs[k + 1].free {
          assert !FreePair(bs, k + 1);
        }
      }
    }
  }

  /** The heap as kmalloc_init leaves it. */
  function Empty(f: Pmm.Frames): State {
    State([], KHEAP_START, f, {})
  }

  /** Two blocks of 16 bytes taken and freed in address order: they stay two free neighbours. */
  lemma {:induction false} NeighboursRun(f: Pmm.Frames)
    requires Pmm.Alloc(f).1 != 0
    ensures var (s1, p) := Malloc(Empty(f), 16); var (s2, q) := Malloc(s1, 16);
      && p == KHEAP_START + 12 && q == p + 28
      && Free(Free(s2, p), q).blocks == [Block(KHEAP_START, 16, true), Block(KHEAP_START + 28, 4056, true)]
      && !NoFreeNeighbours(Free(Free(s2, p), q).blocks)
  {
    var (s1, p) := Malloc(Empty(f), 16);
    FirstBlock(f, 16);
    assert s1.blocks == [Block(0x40_0000, 16, false), Block(0x40_001C, 4056, true)];
    var (s2, q) := Malloc(s1, 16);
    SecondOfTwo(s1.blocks, 16);
    assert s2.blocks == [Block(0x40_0000, 16, false), Block(0x40_001C, 16, false), Block(0x40_0038, 4028, true)];
    IndexIs(s2.blocks, p, 0, 0);
    var s3 := Free(s2, p);
    assert s3.blocks == [Block(0x40_0000, 16, true), Block(0x40_001C, 16, false), Block(0x40_0038, 4028, true)];
    IndexIs(s3.blocks, q, 1, 0);
    assert FreePair(Free(s3, q).blocks, 0);
  }

  // The first block of an empty heap is the front of one page.
  lemma {:induction false} FirstBlock(f: Pmm.Frames, size: u32)
    requires Pmm.Alloc(f).1 != 0 && 0 < size <= 4084
    ensures var (s, p) := Malloc(Empty(f), size);
      && p == KHEAP_START + 12 && s.current == KHEAP_START + 4096
      && s.blocks == Place([Block(KHEAP_START, 4084, true)], 0, size)
  {
    FirstPage(f, size);
    NewBlockFits(size);
  }

  lemma {:induction false} FirstPage(f: Pmm.Frames, size: u32)
    requires Pmm.Alloc(f).1 != 0 && 0 < size <= 4084
    ensures var (s, ok) := Expand(Empty(f), size);
      ok && s.blocks == [Block(KHEAP_START, 4084, true)] && s.current == KHEAP_START + 4096
  {
    OneIsEnough(size);
    OnePage(f);
    assert Extend([], KHEAP_START, 1) == [Block(KHEAP_START, 4084, true)];
  }

  lemma OneIsEnough(size: u32)
    requires 0 < size <= 4084
    ensures Pages(size) == 1
  {
  }

  lemma {:induction false} SecondOfTwo(bs: seq<Block>, size: u32)
    requires |bs| == 2 && !bs[0].free && bs[1].free && bs[1].size >= size
    ensures FirstFit(bs, size) == 1
  {
    assert FirstFit(bs, size) == FirstFit(bs, size, 1);
  }

  // ---------------------------------------------------------------- runs

  /** A call to the allocator, or a client's own store of n bytes to its payload. */
  datatype Op =
    | MallocOp(size: u32)
    | CallocOp(count: u32, each: u32)
    | FreeOp(p: nat)
    | ReallocOp(p: nat, size: u32)
    | StoreOp(p: nat, n: nat)

  /** Clients name only payloads they own, and stay inside them; NULL is allowed to krealloc. */
  predicate Owned(s: State, op: Op) {
    match op
    case MallocOp(_) => true
    case CallocOp(_, _) => true
    case FreeOp(p) => p in Live(s.blocks)
    case ReallocOp(p, _) => p == 0 || p in Live(s.blocks)
    case StoreOp(p, n) => p in Live(s.blocks) && n <= Live(s.blocks)[p]
  }

  /** And ask for sizes that fit. */
  predicate Fitting(s: State, op: Op) {
    match op
    case MallocOp(size) => Fits(s, size)
    case CallocOp(count, each) => Fits(s, Wrap(count * each))
    case ReallocOp(_, size) => Fits(s, size)
    case _ => true
  }

  predicate Allowed(s: State, op: Op) {
    Owned(s, op) && Fitting(s, op)
  }

  function Step(s: State, op: Op): State
    requires Owned(s, op)
  {
    match op
    case MallocOp(size) => Malloc(s, size).0
    case CallocOp(count, each) => Malloc(s, Wrap(count * each)).0
    case FreeOp(p) => Free(s, p)
    case ReallocOp(p, size) => Realloc(s, p, size).0
    case StoreOp(_, _) => s
  }

  predicate Disciplined(s: State, ops: seq<Op>)
    decreases |ops|
  {
    ops == [] || (Allowed(s, ops[0]) && Disciplined(Step(s, ops[0]), ops[1..]))
  }

  function Run(s: State, ops: seq<Op>): State
    requires Disciplined(s, ops)
    decreases |ops|
  {
    if ops == [] then s else Run(Step(s, ops[0]), ops[1..])
  }

  /** An operation on owned payloads, with a size that fits, keeps the heap sound. */
  lemma {:induction false} StepKeepsInv(s: State, op: Op)
    requires Inv(s) && Allowed(s, op)
    ensures Inv(Step(s, op))
  {
    match op
    case MallocOp(size) => MallocCorrect(s, size);
    case CallocOp(count, each) => MallocCorrect(s, Wrap(count * each));
    case FreeOp(p) => FreeCorrect(s, p);
    case ReallocOp(p, size) => ReallocCorrect(s, p, size);
    case StoreOp(_, _) =>
  }

  /** In every reachable state the blocks tile the heap, and live payloads are disjoint. */
  lemma {:induction false} RunKeepsInv(s: State, ops: seq<Op>)
    requires Inv(s) && Disciplined(s, ops)
    ensures Inv(Run(s, ops))
    decreases |ops|
  {
    if ops != [] {
      StepKeepsInv(s, ops[0]);
      RunKeepsInv(Step(s, ops[0]), ops[1..]);
    }
  }

  lemma {:induction false} RunKeepsPayloadsApart(s: State, ops: seq<Op>, p: nat, q: nat)
    requires Inv(s) && Disciplined(s, ops)
    requires var live := Live(Run(s, ops).blocks); p in live && q in live && p < q
    ensures var live := Live(Run(s, ops).blocks);
      KHEAP_START + 12 <= p && p + live[p] + 12 <= q && q + live[q] <= Run(s, ops).current
  {
    RunKeepsInv(s, ops);
    var s' := Run(s, ops);
    LiveDisjoint(s'.blocks, KHEAP_START, s'.current, p, q);
  }
}
