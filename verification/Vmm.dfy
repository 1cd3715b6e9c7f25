/** The page-table code of src/mm/vmm.c, writing directory and table entries in place. */
module Vmm {
  import opened Machine
  import opened PageMap
  import Pmm

  // The allocator's bitmap is not part of the memory it hands out.
  ghost predicate Apart(mem: object, pmm: Pmm.FrameAllocator) {
    mem != pmm.bitmap && mem != pmm
  }

  class PageTables {
    const mem: array<u32>
    const pmm: Pmm.FrameAllocator
    var kernelDir: u32
    ghost var kernelFrame: nat
    ghost var dirs: set<nat>

    ghost predicate Valid()
      reads this, pmm, pmm.bitmap
    {
      pmm.Valid() && Apart(mem, pmm) && mem.Length == pmm.frames.total * 0x400 && kernelDir == kernelFrame * 0x1000
    }

    ghost function View(): Space
      reads this, mem, pmm
    {
      Space(mem[..], pmm.frames, kernelFrame, dirs)
    }

    // The pointer `address` is that of frame f.
    ghost predicate IsFrame(address: u32, f: nat)
      reads this
    {
      address == f * 0x1000 && f * 0x400 + 0x400 <= mem.Length
    }

    constructor (mem: array<u32>, pmm: Pmm.FrameAllocator)
      requires pmm.Valid() && Apart(mem, pmm) && mem.Length == pmm.frames.total * 0x400
      ensures Valid() && this.mem == mem && this.pmm == pmm && kernelDir == 0 && dirs == {}
    {
      this.mem, this.pmm, kernelDir, kernelFrame, dirs := mem, pmm, 0, 0, {};
    }

    method Read(table: u32, i: nat, ghost f: nat) returns (e: u32)
      requires IsFrame(table, f) && i < 0x400
      ensures e == Entry(mem[..], f, i)
    {
      e := mem[table / 4 + i];
    }

    method Write(table: u32, i: nat, e: u32, ghost f: nat)
      requires IsFrame(table, f) && i < 0x400
      modifies mem
      ensures mem[..] == SetEntry(old(mem[..]), f, i, e)
    {
      mem[table / 4 + i] := e;
    }

    // memset(frame, 0, PAGE_SIZE), a word at a time.
    method Clear(frame: u32, ghost f: nat)
      requires IsFrame(frame, f)
      modifies mem
      ensures mem[..] == ZeroFrame(old(mem[..]), f)
    {
      for i := 0 to 0x400
        invariant forall w :: 0 <= w < mem.Length ==>
          mem[w] == if f * 0x400 <= w < f * 0x400 + i then 0 else old(mem[w])
      {
        mem[frame / 4 + i] := 0;
      }
    }

    method GetOrCreateTable(dir: u32, dirIdx: Index, flags: u32, ghost d: nat) returns (table: u32)
      requires Valid() && WellFormed(View()) && IsFrame(dir, d)
      requires flags == PAGE_PRESENT + PAGE_WRITE + PAGE_USER
      modifies mem, pmm, pmm.bitmap
      ensures Valid()
      ensures View() == TableFor(old(View()), d, dirIdx).0 && table == TableFor(old(View()), d, dirIdx).1 * 0x1000
    {
      FreshFrame(pmm.frames);
      var entry := Read(dir, dirIdx, d);
      var present := IsPresent(entry);
      if present {
        table := FrameBits(entry);
        return;
      }
      ghost var f := Pmm.Alloc(pmm.frames).1;
      table := pmm.AllocPage();
      if table != 0 {
        Clear(table, f);
        var link := Combine(table, flags, f);
        Write(dir, dirIdx, link, d);
      }
    }

    /** vmm_map_page: View() moves as PageMap.MapPage says; MapPageCorrect says what that means. */
    method MapPage(dir: u32, virt: u32, phys: u32, flags: u32, ghost d: nat)
      requires Valid() && Inv(View()) && dir == d * 0x1000 && MayTouch(View(), d, PageOf(virt))
      modifies mem, pmm, pmm.bitmap
      ensures Valid() && View() == PageMap.MapPage(old(View()), d, PageOf(virt), phys, flags)
    {
      InMemory(View(), d);
      TableInMemory(View(), d, PageOf(virt).di);
      ghost var f := TableFor(View(), d, PageOf(virt).di).1;
      var di := PageDirIndex(virt);
      var ti := PageTabIndex(virt);
      var table := GetOrCreateTable(dir, di, PAGE_PRESENT + PAGE_WRITE + PAGE_USER, d);
      if table != 0 {
        var frame := FrameBits(phys);
        var low := FlagBits(flags);
        var entry := Combine(frame, low, FrameOf(phys));
        Write(table, ti, entry, f);
      }
    }

    method UnmapPage(dir: u32, virt: u32, ghost d: nat)
      requires Valid() && Inv(View()) && dir == d * 0x1000 && MayTouch(View(), d, PageOf(virt))
      modifies mem
      ensures Valid() && View() == PageMap.UnmapPage(old(View()), d, PageOf(virt))
    {
      InMemory(View(), d);
      TableInMemory(View(), d, PageOf(virt).di);
      var di := PageDirIndex(virt);
      var ti := PageTabIndex(virt);
      var entry := Read(dir, di, d);
      var present := IsPresent(entry);
      if present {
        var table := FrameBits(entry);
        Write(table, ti, 0, FrameOf(entry));
      }
    }

    method GetPhys(dir: u32, virt: u32, ghost d: nat) returns (phys: u32)
      requires Valid() && Inv(View()) && dir == d * 0x1000 && d in dirs
      ensures phys == PageMap.GetPhys(mem[..], d, PageOf(virt))
    {
      InMemory(View(), d);
      TableInMemory(View(), d, PageOf(virt).di);
      var di := PageDirIndex(virt);
      var ti := PageTabIndex(virt);
      var entry := Read(dir, di, d);
      var present := IsPresent(entry);
      if !present {
        return 0;
      }
      var table := FrameBits(entry);
      var page := Read(table, ti, FrameOf(entry));
      present := IsPresent(page);
      if !present {
        return 0;
      }
      phys := FrameBits(page);
    }

    // The present entries of the kernel's directory, copied to another.
    method Share(dir: u32, ghost d: nat)
      requires IsFrame(dir, d) && IsFrame(kernelDir, kernelFrame)
      modifies mem
      ensures mem[..] == Shared(old(mem[..]), kernelFrame, d, 0x400)
    {
      for i := 0 to 0x400
        invariant mem[..] == Shared(old(mem[..]), kernelFrame, d, i)
      {
        var entry := Read(kernelDir, i, kernelFrame);
        var present := IsPresent(entry);
        if present {
          Write(dir, i, entry, d);
        }
      }
    }

    method CreateDir() returns (dir: u32)
      requires Valid() && Inv(View())
      modifies this, mem, pmm, pmm.bitmap
      ensures Valid() && View() == PageMap.CreateDir(old(View())).0
      ensures dir == PageMap.CreateDir(old(View())).1 * 0x1000
    {
      FreshFrame(pmm.frames);
      InMemory(View(), kernelFrame);
      ghost var d := Pmm.Alloc(pmm.frames).1;
      dir := pmm.AllocPage();
      if dir == 0 {
        return;
      }
      Clear(dir, d);
      Share(dir, d);
      dirs := dirs + {d};
    }

    /** vmm_init: the kernel directory becomes the identity map of the first 4 MiB, and of nothing
        else, when a second frame is left for its table; otherwise it maps nothing. */
    method Init()
      requires Valid() && 0 in pmm.frames.used && !Pmm.Full(pmm.frames)
      modifies this, mem, pmm, pmm.bitmap
      ensures Valid() && Inv(View()) && dirs == {kernelFrame}
      ensures kernelFrame !in old(pmm.frames.used)
      ensures var room := !Pmm.Full(old(Pmm.Alloc(pmm.frames).0));
        && (room <==> Present(Entry(mem[..], kernelFrame, 0)))
        && IdentityBelow(mem[..], kernelFrame, if room then 0x400 else 0)
    {
      FreshFrame(pmm.frames);
      kernelFrame := Pmm.Alloc(pmm.frames).1;
      kernelDir := pmm.AllocPage();
      Clear(kernelDir, kernelFrame);
      dirs := {kernelFrame};
      ghost var zeroed := View();
      EmptyDirectory(old(mem[..]), zeroed);
      var addr: u32 := 0;
      ghost var n := 0;
      while addr < 0x400000
        invariant addr == n * 0x1000 && n <= 0x400
        invariant Valid() && Booting(zeroed, View(), n)
      {
        LowPage(n);
        BootStep(zeroed, View(), n);
        MapPage(kernelDir, addr, addr, PAGE_PRESENT + PAGE_WRITE, kernelFrame);
        addr := addr + 0x1000;
        n := n + 1;
      }
    }
  }

  /** vmm_init after n pages, having started from an empty directory. */
  ghost predicate Booting(zeroed: Space, s: Space, n: nat) {
    var room := !Pmm.Full(zeroed.frames);
    && Inv(s) && s.dirs == {zeroed.kernel} && s.kernel == zeroed.kernel
    && (!room || n == 0 ==> s == zeroed)
    && (Present(Entry(s.mem, s.kernel, 0)) <==> room && n > 0)
    && IdentityBelow(s.mem, s.kernel, if room then n else 0)
  }

  lemma BootStep(zeroed: Space, s: Space, n: nat)
    requires Booting(zeroed, s, n) && n < 0x400
    ensures Booting(zeroed, PageMap.MapPage(s, s.kernel, Page(0, n), n * 0x1000, 3), n + 1)
  {
    MapPageCorrect(s, s.kernel, Page(0, n), n * 0x1000, 3);
    if !Pmm.Full(zeroed.frames) {
      BootMaps(s, n);
    }
  }

  lemma BootMaps(s: Space, n: nat)
    requires Inv(s) && n < 0x400 && HasTable(s, s.kernel, Page(0, n)) && IdentityBelow(s.mem, s.kernel, n)
    ensures var s' := PageMap.MapPage(s, s.kernel, Page(0, n), n * 0x1000, 3);
      && Present(Entry(s'.mem, s.kernel, 0)) && s'.kernel == s.kernel
      && IdentityBelow(s'.mem, s.kernel, n + 1)
  {
    LowPage(n);
    MapPageCorrect(s, s.kernel, Page(0, n), n * 0x1000, 3);
    TableStays(s, s.kernel, Page(0, n), n * 0x1000, 3);
    IdentityStep(s, PageMap.MapPage(s, s.kernel, Page(0, n), n * 0x1000, 3), n);
  }

  lemma IdentityStep(s: Space, s': Space, n: nat)
    requires n < 0x400 && s.kernel in s.dirs
    requires IdentityBelow(s.mem, s.kernel, n)
    requires Remapped(s, s', s.kernel, Page(0, n), n * 0x1000)
    ensures IdentityBelow(s'.mem, s.kernel, n + 1)
  {
  }

  // A page once mapped has a table.
  lemma TableStays(s: Space, dir: nat, page: Page, phys: u32, flags: u32)
    requires Inv(s) && MayTouch(s, dir, page) && HasTable(s, dir, page)
    ensures Present(Entry(PageMap.MapPage(s, dir, page, phys, flags).mem, dir, page.di))
    ensures PageMap.MapPage(s, dir, page, phys, flags).kernel == s.kernel
  {
    TableForCorrect(s, dir, page);
    var (s1, table) := TableFor(s, dir, page.di);
    assert table !in s1.dirs;
    EntrySet(s1.mem, table, page.ti, PageEntry(phys, flags), dir, page.di);
  }

  lemma EmptyDirectory(before: seq<u32>, s: Space)
    requires WellFormed(s) && s.dirs == {s.kernel} && s.mem == ZeroFrame(before, s.kernel)
    ensures Inv(s) && IdentityBelow(s.mem, s.kernel, 0) && !Present(Entry(s.mem, s.kernel, 0))
  {
    forall i | 0 <= i < 0x400
      ensures Entry(s.mem, s.kernel, i) == 0
    {
      EntryZeroed(before, s.kernel, s.kernel, i);
    }
  }

  /** The first `n` pages translate to themselves, and no other page at all. */
  ghost predicate IdentityBelow(mem: seq<u32>, dir: nat, n: nat) {
    forall p: Page :: PageMap.GetPhys(mem, dir, p) == if p.di == 0 && p.ti < n then p.ti * 0x1000 else 0
  }

  // In terms of addresses: the first 4 MiB map to themselves, page by page.
  lemma IdentityMap(mem: seq<u32>, dir: nat, v: u32)
    requires IdentityBelow(mem, dir, 0x400)
    ensures PageMap.GetPhys(mem, dir, PageOf(v)) == if v < 0x40_0000 then v / 0x1000 * 0x1000 else 0
  {
    PageOfMeans(v, v);
  }

  lemma LowPage(n: nat)
    requires n < 0x400
    ensures PageOf(n * 0x1000) == Page(0, n)
    ensures Target(PageEntry(n * 0x1000, PAGE_PRESENT + PAGE_WRITE)) == n * 0x1000
  {
    assert n * 0x1000 / 0x1000 == n;
    TargetOfPageEntry(n * 0x1000, PAGE_PRESENT + PAGE_WRITE);
  }

  // `(virt >> 22) & 0x3FF`
  method PageDirIndex(virt: u32) returns (i: Index)
    ensures i == PageOf(virt).di
  {
    i := virt / 0x40_0000;
    IndexMask(i);
    i := BitAnd(i, 0x3FF);
  }

  // `(virt >> 12) & 0x3FF`
  method PageTabIndex(virt: u32) returns (i: Index)
    ensures i == PageOf(virt).ti
  {
    IndexMask(virt / 0x1000);
    return BitAnd(virt / 0x1000, 0x3FF);
  }

  // `e & 0xFFFFF000`
  method FrameBits(e: u32) returns (r: u32)
    ensures r == FrameOf(e) * 0x1000
  {
    FrameMask(e);
    return BitAnd(e, 0xFFFFF000);
  }

  // `e & 0xFFF`
  method FlagBits(e: u32) returns (r: u32)
    ensures r == e % 0x1000
  {
    FlagMask(e);
    return BitAnd(e, 0xFFF);
  }

  // `e & PAGE_PRESENT`
  method IsPresent(e: u32) returns (present: bool)
    ensures present == Present(e)
  {
    BitZero(e);
    return BitAnd(e, PAGE_PRESENT) != 0;
  }

  // `frame | flags`
  method Combine(frame: u32, flags: u32, ghost f: nat) returns (r: u32)
    requires frame == f * 0x1000 && flags < 0x1000
    ensures r == Combined(f, flags)
  {
    PageOr(f, flags);
    return BitOr(frame, flags);
  }

  lemma InMemory(s: Space, dir: nat)
    requires WellFormed(s) && dir in s.dirs
    ensures dir * 0x400 + 0x400 <= |s.mem|
  {
    assert dir in s.frames.used;
  }

  lemma TableInMemory(s: Space, dir: nat, di: Index)
    requires Inv(s) && dir in s.dirs
    ensures TableFor(s, dir, di).1 * 0x400 + 0x400 <= |s.mem|
    ensures |TableFor(s, dir, di).0.mem| == |s.mem|
  {
    FreshFrame(s.frames);
    if Present(Entry(s.mem, dir, di)) {
      assert FrameOf(Entry(s.mem, dir, di)) in s.frames.used;
    }
  }
}
