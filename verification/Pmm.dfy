/** The physical frame allocator (src/mm/pmm.c): a bitmap with one bit per 4 KiB frame
    and a cached count of the frames in use. */
module Pmm {
  import opened Machine

  const BITMAP_SIZE: nat := 128 * 1024 / 8
  const MAX_PAGES: nat := BITMAP_SIZE * 8

  // ---------------------------------------------------------------- bits

  function Mask(k: nat): bv8
    requires k < 8
  {
    (1 as bv8) << k
  }

  predicate Bit(b: bv8, k: nat)
    requires k < 8
  {
    b & Mask(k) != 0
  }

  lemma SetOneBit(b: bv8, k: nat, j: nat)
    requires k < 8 && j < 8
    ensures Bit(b | Mask(k), j) <==> k == j || Bit(b, j)
  {
  }

  lemma ClearOneBit(b: bv8, k: nat, j: nat)
    requires k < 8 && j < 8
    ensures Bit(b & !Mask(k), j) <==> k != j && Bit(b, j)
  {
  }

  // ---------------------------------------------------------------- specification

  /** What the bitmap means: which of the `total` frames are in use, and the cached count. */
  datatype Frames = Frames(total: nat, used: set<nat>, count: int)

  function Below(n: nat): (s: set<nat>)
    ensures |s| == n
    ensures forall i: nat :: i in s <==> i < n
  {
    if n == 0 then {} else Below(n - 1) + {n - 1}
  }

  /** The lowest frame at or above `from` that is not in use; `total` when there is none. */
  function LowestClear(f: Frames, from: nat): (p: nat)
    requires from <= f.total
    ensures from <= p <= f.total
    ensures p < f.total ==> p !in f.used
    ensures forall q :: from <= q < p ==> q in f.used
    decreases f.total - from
  {
    if from == f.total || from !in f.used then from else LowestClear(f, from + 1)
  }

  /** No frame is left; FullMeans says it with sets. */
  predicate Full(f: Frames) {
    LowestClear(f, 0) == f.total
  }

  /** The frame taken, 0 when there is none (the address 0 is the C code's NULL). */
  function Alloc(f: Frames): (Frames, nat) {
    var p := LowestClear(f, 0);
    if p == f.total then (f, 0) else (f.(used := f.used + {p}, count := f.count + 1), p)
  }

  function Free(f: Frames, page: nat): Frames {
    if page < f.total && page in f.used then f.(used := f.used - {page}, count := f.count - 1) else f
  }

  // ---------------------------------------------------------------- implementation

  class FrameAllocator {
    const bitmap: array<bv8>
    var totalPages: nat
    var usedPages: int
    /** What the bitmap and the counters stand for. */
    ghost var frames: Frames

    ghost predicate Sized()
      reads this
    {
      bitmap.Length == BITMAP_SIZE && totalPages <= MAX_PAGES
    }

    ghost predicate Valid()
      reads this, bitmap
    {
      && Sized()
      && frames.total == totalPages && frames.count == usedPages
      && forall i: nat :: i in frames.used <==> i < totalPages && Test(i)
    }

    predicate Test(page: nat)
      requires page < 8 * bitmap.Length
      reads bitmap
    {
      Bit(bitmap[page / 8], page % 8)
    }

    // The static storage before pmm_init: all zero.
    constructor ()
      ensures Valid() && fresh(bitmap) && totalPages == 0 && usedPages == 0
    {
      bitmap := new bv8[BITMAP_SIZE];
      totalPages, usedPages, frames := 0, 0, Frames(0, {}, 0);
    }

    method SetPage(page: nat)
      requires Sized() && page < MAX_PAGES
      modifies bitmap
      ensures forall i: nat :: i < MAX_PAGES ==> Test(i) == (i == page || old(Test(i)))
    {
      bitmap[page / 8] := bitmap[page / 8] | Mask(page % 8);
      forall i: nat | i < MAX_PAGES
        ensures Test(i) == (i == page || old(Test(i)))
      {
        SetOneBit(old(bitmap[page / 8]), page % 8, i % 8);
      }
    }

    method ClearPage(page: nat)
      requires Sized() && page < MAX_PAGES
      modifies bitmap
      ensures forall i: nat :: i < MAX_PAGES ==> Test(i) == (i != page && old(Test(i)))
    {
      bitmap[page / 8] := bitmap[page / 8] & !Mask(page % 8);
      forall i: nat | i < MAX_PAGES
        ensures Test(i) == (i != page && old(Test(i)))
      {
        ClearOneBit(old(bitmap[page / 8]), page % 8, i % 8);
      }
    }

    /** `kernelEnd` is the linker symbol `_kernel_end`. */
    method Init(memSize: u32, kernelEnd: u32)
      requires Valid()
      modifies this, bitmap
      ensures Valid()
      ensures totalPages == if memSize / 0x1000 > MAX_PAGES then MAX_PAGES else memSize / 0x1000
      ensures frames == Booted(totalPages, StartPage(kernelEnd))
    {
      totalPages := memSize / 0x1000;
      if totalPages > BITMAP_SIZE * 8 {
        totalPages := BITMAP_SIZE * 8;
      }
      usedPages := 0;
      ghost var total := totalPages;
      for i := 0 to BITMAP_SIZE
        invariant Sized() && totalPages == total
        invariant forall j :: 0 <= j < i ==> bitmap[j] == 0xFF
      {
        bitmap[i] := 0xFF;
      }
      forall i: nat | i < MAX_PAGES
        ensures Test(i)
      {
        AllOnes(i % 8);
      }
      for i := 0 to 256
        invariant Sized() && totalPages == total
        invariant forall j: nat :: j < MAX_PAGES ==> Test(j)
      {
        SetPage(i);
      }
      var startPage := Wrap(kernelEnd + 0x1000 - 1) / 0x1000;
      var page := startPage;
      while page < totalPages
        invariant Sized() && totalPages == total && startPage <= page
        invariant startPage <= totalPages ==> page <= totalPages
        invariant forall j: nat :: j < MAX_PAGES ==> Test(j) == !(startPage <= j < page && j < totalPages)
      {
        ClearPage(page);
        page := page + 1;
      }
      usedPages := startPage;
      frames := Booted(totalPages, startPage);
    }

    method AllocPage() returns (addr: u32)
      requires Valid()
      modifies this, bitmap
      ensures Valid()
      ensures frames == Alloc(old(frames)).0 && addr == Alloc(old(frames)).1 * 0x1000
    {
      for i := 0 to totalPages
        invariant Valid() && frames == old(frames) && forall j: nat :: j < i ==> Test(j)
      {
        if !Test(i) {
          LowestIs(frames, 0, i);
          SetPage(i);
          usedPages := usedPages + 1;
          frames := Alloc(frames).0;
          return i * 0x1000;
        }
      }
      LowestIs(frames, 0, totalPages);
      return 0;
    }

    method FreePage(addr: u32)
      requires Valid()
      modifies this, bitmap
      ensures Valid()
      ensures frames == Free(old(frames), addr / 0x1000)
    {
      var page := addr / 0x1000;
      if page < totalPages && Test(page) {
        ClearPage(page);
        usedPages := usedPages - 1;
        frames := Free(frames, page);
      }
    }

    // In 32 bits: when the kernel ends past memory the difference wraps.
    method FreePages() returns (n: u32)
      requires Valid()
      ensures n == Wrap(totalPages - usedPages)
      ensures frames.count == |frames.used| ==> n == |Below(totalPages) - frames.used|
    {
      n := Wrap(totalPages - usedPages);
      if frames.count == |frames.used| {
        FreeCount(frames);
      }
    }
  }

  lemma FreeCount(f: Frames)
    requires f.used <= Below(f.total) && f.total <= MAX_PAGES
    ensures |Below(f.total) - f.used| == f.total - |f.used| == Wrap(f.total - |f.used|)
  {
    WrapSmall(|Below(f.total) - f.used|);
  }

  lemma AllOnes(k: nat)
    requires k < 8
    ensures Bit(0xFF, k)
  {
  }

  function StartPage(kernelEnd: u32): nat {
    Wrap(kernelEnd + 0x1000 - 1) / 0x1000
  }

  lemma {:induction false} LowestIs(f: Frames, from: nat, p: nat)
    requires from <= p <= f.total
    requires p < f.total ==> p !in f.used
    requires forall q: nat :: from <= q < p ==> q in f.used
    ensures LowestClear(f, from) == p
    decreases p - from
  {
    if from < p {
      LowestIs(f, from + 1, p);
    }
  }

  // ---------------------------------------------------------------- runs

  datatype Op = AllocOp | FreeOp(page: nat)

  /** The allocator together with the frames its clients hold. */
  datatype Owned = Owned(frames: Frames, held: set<nat>)

  function Step(s: Owned, op: Op): Owned {
    match op
    case AllocOp =>
      var (f, page) := Alloc(s.frames);
      Owned(f, if f == s.frames then s.held else s.held + {page})
    case FreeOp(page) =>
      Owned(Free(s.frames, page), s.held - {page})
  }

  function Run(s: Owned, ops: seq<Op>): Owned
    decreases |ops|
  {
    if ops == [] then s else Run(Step(s, ops[0]), ops[1..])
  }

  /** Clients free only frames they hold. */
  predicate Disciplined(s: Owned, ops: seq<Op>)
    decreases |ops|
  {
    ops == [] ||
    ((ops[0].FreeOp? ==> ops[0].page in s.held) && Disciplined(Step(s, ops[0]), ops[1..]))
  }

  /** The frames in use are the kernel's own and the held ones, and the count is exact. */
  ghost predicate Inv(start: nat, s: Owned) {
    && 0 < start <= s.frames.total
    && Below(start) !! s.held
    && s.frames.used == Below(start) + s.held
    && s.held <= Below(s.frames.total)
    && s.frames.count == |s.frames.used|
  }

  /** The frames as pmm_init leaves them: the kernel's in use, and counted as if they were all there. */
  function Booted(total: nat, start: nat): Frames {
    Frames(total, Below(if start < total then start else total), start)
  }

  /** Every run starts sound exactly when the kernel ends inside memory, and not at address 0. */
  lemma BootedInv(total: nat, start: nat)
    ensures Inv(start, Owned(Booted(total, start), {})) <==> 0 < start <= total
    ensures Booted(total, start).count == |Booted(total, start).used| <==> start <= total
  {
  }

  lemma FullMeans(f: Frames)
    requires f.used <= Below(f.total)
    ensures Full(f) <==> f.used == Below(f.total)
  {
    if LowestClear(f, 0) == f.total {
      assert forall q: nat :: q < f.total ==> q in f.used;
    } else {
      assert LowestClear(f, 0) in Below(f.total);
    }
  }

  lemma AddHeld(kernel: set<nat>, held: set<nat>, all: set<nat>, p: nat)
    requires kernel !! held && held <= all && p !in kernel + held && p in all
    ensures kernel !! held + {p} && kernel + held + {p} == kernel + (held + {p}) && held + {p} <= all
    ensures |kernel + held + {p}| == |kernel + held| + 1
  {
  }

  lemma AllocKeepsInv(start: nat, s: Owned)
    requires Inv(start, s)
    ensures Inv(start, Step(s, AllocOp))
  {
    var p := LowestClear(s.frames, 0);
    if p < s.frames.total {
      AddHeld(Below(start), s.held, Below(s.frames.total), p);
    }
  }

  /** Allocation hands out the lowest frame not in use: never the kernel's, never a held one;
      it fails only when every frame is in use. */
  lemma AllocIsFresh(start: nat, s: Owned)
    requires Inv(start, s)
    ensures s.frames.used == Below(s.frames.total) ==> Alloc(s.frames) == (s.frames, 0)
    ensures s.frames.used != Below(s.frames.total) ==>
      var page := Alloc(s.frames).1;
      && start <= page < s.frames.total && page !in s.held
      && Alloc(s.frames).0.used == s.frames.used + {page}
      && (forall q: nat :: q < page ==> q in s.frames.used)
  {
    var p := LowestClear(s.frames, 0);
    FullMeans(s.frames);
    if p < s.frames.total {
      assert p !in Below(start);
    }
  }

  lemma FreeKeepsInv(start: nat, s: Owned, page: nat)
    requires Inv(start, s)
    requires page in s.held
    ensures Inv(start, Step(s, FreeOp(page)))
  {
  }

  lemma StepKeepsInv(start: nat, s: Owned, op: Op)
    requires Inv(start, s)
    requires op.FreeOp? ==> op.page in s.held
    ensures Inv(start, Step(s, op))
  {
    match op
    case AllocOp => AllocKeepsInv(start, s);
    case FreeOp(page) => FreeKeepsInv(start, s, page);
  }

  /** Every reachable state of a disciplined run counts its frames exactly, keeps the kernel's
      frames, and holds nothing twice. */
  lemma {:induction false} RunKeepsInv(start: nat, s: Owned, ops: seq<Op>)
    requires Inv(start, s)
    requires Disciplined(s, ops)
    ensures Inv(start, Run(s, ops))
    decreases |ops|
  {
    if ops != [] {
      StepKeepsInv(start, s, ops[0]);
      RunKeepsInv(start, Step(s, ops[0]), ops[1..]);
    }
  }

  // A client reads address 0 as failure; that reading is right exactly while frame 0 stays in use.
  lemma NullMeansFullMeans(f: Frames)
    requires 0 < f.total && f.used <= Below(f.total)
    ensures (Alloc(f).1 == 0 <==> f.used == Below(f.total)) <==> 0 in f.used
  {
    FullMeans(f);
  }

  // Allocating and freeing again is the identity.
  lemma AllocFree(f: Frames)
    requires Alloc(f).0 != f
    ensures Free(Alloc(f).0, Alloc(f).1) == f
  {
    var p := LowestClear(f, 0);
    assert f.used + {p} - {p} == f.used;
  }
}
