/** What the two-level page tables of src/mm/vmm.c mean: operations on physical memory and the
    frame allocator as values, and the virtual-to-physical maps they keep. Directories are
    named by their frame number. */
module PageMap {
  import opened Machine
  import Pmm

  const PAGE_PRESENT: nat := 0x01
  const PAGE_WRITE: nat := 0x02
  const PAGE_USER: nat := 0x04

  // ---------------------------------------------------------------- specification

  /** Physical memory as 32-bit words, the frame allocator, the kernel's directory, and every
      directory handed out so far (the kernel's included). */
  datatype Space = Space(mem: seq<u32>, frames: Pmm.Frames, kernel: nat, dirs: set<nat>)

  /** Entry i of the table or directory in a frame. */
  function Entry(mem: seq<u32>, frame: nat, i: nat): u32 {
    if frame * 0x400 + i < |mem| then mem[frame * 0x400 + i] else 0
  }

  function SetEntry(mem: seq<u32>, frame: nat, i: nat, e: u32): (r: seq<u32>)
    ensures |r| == |mem|
  {
    if frame * 0x400 + i < |mem| then mem[frame * 0x400 + i := e] else mem
  }

  function ZeroFrame(mem: seq<u32>, frame: nat): (r: seq<u32>)
    ensures |r| == |mem|
  {
    seq(|mem|, w requires 0 <= w < |mem| => if frame * 0x400 <= w < (frame + 1) * 0x400 then 0 else mem[w])
  }

  predicate Present(e: u32) {
    e % 2 == 1
  }

  function FrameOf(e: u32): nat {
    e / 0x1000
  }

  type Index = i: nat | i < 0x400

  /** A virtual page: its directory index and its table index. */
  datatype Page = Page(di: Index, ti: Index)

  function PageOf(virt: u32): Page {
    Page(virt / 0x40_0000, virt / 0x1000 % 0x400)
  }

  // Pages are 4 KiB each, and directory index 0 is the first 4 MiB.
  lemma PageOfMeans(v: u32, w: u32)
    ensures PageOf(v) == PageOf(w) <==> v / 0x1000 == w / 0x1000
    ensures PageOf(v).di == 0 <==> v < 0x40_0000
  {
    assert v / 0x1000 / 0x400 == v / 0x40_0000;
    assert w / 0x1000 / 0x400 == w / 0x40_0000;
  }

  /** The frame address a present entry names. */
  function Target(e: u32): u32 {
    if Present(e) then FrameOf(e) * 0x1000 else 0
  }

  function GetPhys(mem: seq<u32>, dir: nat, page: Page): u32 {
    var d := Entry(mem, dir, page.di);
    if !Present(d) then 0 else Target(Entry(mem, FrameOf(d), page.ti))
  }

  /** get_or_create_table: the table's frame, 0 when memory is exhausted. */
  function TableFor(s: Space, dir: nat, di: nat): (Space, nat) {
    var e := Entry(s.mem, dir, di);
    if Present(e) then (s, FrameOf(e)) else
    var (f, p) := Pmm.Alloc(s.frames);
    if p == 0 || p >= 0x10_0000 then (s.(frames := f), 0) else
    (s.(frames := f, mem := SetEntry(ZeroFrame(s.mem, p), dir, di, Combined(p, 7))), p)
  }

  function PageEntry(phys: u32, flags: u32): u32 {
    Combined(phys / 0x1000, flags % 0x1000)
  }

  function Combined(frame: nat, flags: nat): (e: nat)
    requires frame < 0x10_0000 && flags < 0x1000
    ensures e < 0x1_0000_0000
    ensures FrameOf(e) == frame && (Present(e) <==> flags % 2 == 1)
  {
    frame * 0x1000 + flags
  }

  // A page mapped with PAGE_PRESENT translates to the page-aligned part of the physical address, and
  // its entry carries the low twelve flag bits.
  lemma TargetOfPageEntry(phys: u32, flags: u32)
    ensures Target(PageEntry(phys, flags)) == if flags % 2 == 1 then phys / 0x1000 * 0x1000 else 0
    ensures PageEntry(phys, flags) % 0x1000 == flags % 0x1000
  {
    assert flags % 0x1000 % 2 == flags % 2;
  }

  function MapPage(s: Space, dir: nat, page: Page, phys: u32, flags: u32): Space {
    var (s1, table) := TableFor(s, dir, page.di);
    if table == 0 then s1 else
    s1.(mem := SetEntry(s1.mem, table, page.ti, PageEntry(phys, flags)))
  }

  function UnmapPage(s: Space, dir: nat, page: Page): Space {
    var e := Entry(s.mem, dir, page.di);
    if !Present(e) then s else s.(mem := SetEntry(s.mem, FrameOf(e), page.ti, 0))
  }

  /** The present kernel entries below n copied into an empty directory. */
  function Shared(mem: seq<u32>, kernel: nat, dir: nat, n: nat): seq<u32> {
    if n == 0 then mem else
    var m := Shared(mem, kernel, dir, n - 1);
    var e := Entry(m, kernel, n - 1);
    if Present(e) then SetEntry(m, dir, n - 1, e) else m
  }

  function CreateDir(s: Space): (Space, nat) {
    var (f, dir) := Pmm.Alloc(s.frames);
    if dir == 0 then (s.(frames := f), 0) else
    (s.(frames := f, mem := Shared(ZeroFrame(s.mem, dir), s.kernel, dir, 0x400), dirs := s.dirs + {dir}), dir)
  }

  // ---------------------------------------------------------------- invariant

  ghost predicate WellFormed(s: Space) {
    && |s.mem| == s.frames.total * 0x400
    && s.frames.total <= Pmm.MAX_PAGES
    && (forall p | p in s.frames.used :: p < s.frames.total)
    && 0 in s.frames.used
    && s.kernel in s.dirs
    && s.dirs <= s.frames.used - {0}
  }

  /** Every present directory entry points at a frame that is in use as a table only. */
  ghost predicate TablesOwned(s: Space) {
    forall d, i | d in s.dirs && 0 <= i < 0x400 && Present(Entry(s.mem, d, i)) ::
      FrameOf(Entry(s.mem, d, i)) in s.frames.used - {0} - s.dirs
  }

  /** No table hangs off two places, but for the one every directory shares at entry 0. */
  ghost predicate TablesApart(s: Space) {
    forall d, i, d', i' |
      && d in s.dirs && 0 <= i < 0x400 && Present(Entry(s.mem, d, i))
      && d' in s.dirs && 0 <= i' < 0x400 && Present(Entry(s.mem, d', i'))
      && FrameOf(Entry(s.mem, d, i)) == FrameOf(Entry(s.mem, d', i')) ::
      i == i' && (d == d' || i == 0)
  }

  ghost predicate KernelShared(s: Space) {
    && (forall d | d in s.dirs :: Entry(s.mem, d, 0) == Entry(s.mem, s.kernel, 0))
    && (forall i | 0 < i < 0x400 :: !Present(Entry(s.mem, s.kernel, i)))
    && (Present(Entry(s.mem, s.kernel, 0)) || s.dirs == {s.kernel})
  }

  ghost predicate Inv(s: Space) {
    WellFormed(s) && TablesOwned(s) && TablesApart(s) && KernelShared(s)
  }

  /** The kernel directory is private to vmm.c, which maps only the shared region through it. */
  ghost predicate MayTouch(s: Space, dir: nat, page: Page) {
    dir in s.dirs && (dir == s.kernel ==> page.di == 0)
  }

  /** After translates the page of `page` to `to` (0: not at all) in `dir`, and, below 4 MiB, in
      every directory; every other translation is as before. */
  ghost predicate Remapped(before: Space, after: Space, dir: nat, page: Page, to: u32) {
    forall d, v: Page | d in before.dirs ::
      GetPhys(after.mem, d, v) == if Affects(dir, page, d, v) then to else GetPhys(before.mem, d, v)
  }

  /** Whether changing the page of `page` in `dir` is seen by `v` in `d`. */
  predicate Affects(dir: nat, page: Page, d: nat, v: Page) {
    v == page && (d == dir || page.di == 0)
  }

  ghost predicate SameTranslations(before: Space, after: Space) {
    forall d, v: Page | d in before.dirs :: GetPhys(after.mem, d, v) == GetPhys(before.mem, d, v)
  }

  // ---------------------------------------------------------------- memory lemmas

  lemma EntrySet(mem: seq<u32>, f: nat, i: nat, e: u32, g: nat, j: nat)
    requires i < 0x400 && j < 0x400
    ensures Entry(SetEntry(mem, f, i, e), g, j) ==
      if g == f && j == i && f * 0x400 + i < |mem| then e else Entry(mem, g, j)
  {
  }

  lemma EntryZeroed(mem: seq<u32>, f: nat, g: nat, j: nat)
    requires j < 0x400
    ensures Entry(ZeroFrame(mem, f), g, j) == if g == f then 0 else Entry(mem, g, j)
  {
  }

  // What a fresh frame gives: in range, not 0, not in use.
  lemma FreshFrame(f: Pmm.Frames)
    requires f.total <= Pmm.MAX_PAGES && (forall p | p in f.used :: p < f.total) && 0 in f.used
    ensures var (f', p) := Pmm.Alloc(f);
      && p < 0x10_0000
      && (p == 0 <==> Pmm.Full(f))
      && (p == 0 ==> f' == f)
      && (p != 0 ==>
            && p !in f.used && p < f.total
            && f'.used == f.used + {p} && f'.total == f.total && p < f.total)
  {
  }

  // ---------------------------------------------------------------- tables

  ghost predicate HasTable(s: Space, dir: nat, page: Page) {
    Present(Entry(s.mem, dir, page.di)) || !Pmm.Full(s.frames)
  }

  // The directory entries after a missing table was created.
  lemma TableEntries(s: Space, dir: nat, di: nat, d: nat, i: nat)
    requires Inv(s) && dir in s.dirs && di < 0x400 && d in s.dirs && i < 0x400
    requires !Present(Entry(s.mem, dir, di)) && !Pmm.Full(s.frames)
    ensures var (s', table) := TableFor(s, dir, di);
      && table !in s.frames.used && table != 0 && table < s.frames.total && table < 0x10_0000
      && s'.frames.used == s.frames.used + {table} && WellFormed(s')
      && s'.dirs == s.dirs && s'.kernel == s.kernel
      && Entry(s'.mem, d, i) == (if d == dir && i == di then Combined(table, 7) else Entry(s.mem, d, i))
  {
    FreshFrame(s.frames);
    var table := TableFor(s, dir, di).1;
    EntryZeroed(s.mem, table, d, i);
    EntrySet(ZeroFrame(s.mem, table), dir, di, Combined(table, 7), d, i);
  }

  lemma TableForKeepsInv(s: Space, dir: nat, page: Page)
    requires Inv(s) && MayTouch(s, dir, page)
    ensures Inv(TableFor(s, dir, page.di).0)
  {
    var di := page.di;
    var (s', table) := TableFor(s, dir, di);
    FreshFrame(s.frames);
    if !Present(Entry(s.mem, dir, di)) && !Pmm.Full(s.frames) {
      forall d, i | d in s.dirs && 0 <= i < 0x400
        ensures Entry(s'.mem, d, i) == if d == dir && i == di then Combined(table, 7) else Entry(s.mem, d, i)
        ensures table !in s.frames.used && table < 0x10_0000 && WellFormed(s')
        ensures s'.frames.used == s.frames.used + {table}
      {
        TableEntries(s, dir, di, d, i);
      }
      assert s.kernel in s.dirs;
      assert TablesApart(s');
    }
  }

  // Creating an (empty) table translates nothing anew.
  lemma TableForKeepsPhys(s: Space, dir: nat, di: nat, d: nat, v: Page)
    requires Inv(s) && dir in s.dirs && di < 0x400 && d in s.dirs
    ensures GetPhys(TableFor(s, dir, di).0.mem, d, v) == GetPhys(s.mem, d, v)
  {
    var (s', table) := TableFor(s, dir, di);
    FreshFrame(s.frames);
    if !Present(Entry(s.mem, dir, di)) && !Pmm.Full(s.frames) {
      TableEntries(s, dir, di, d, v.di);
      var t := FrameOf(Entry(s'.mem, d, v.di));
      var z := ZeroFrame(s.mem, table);
      EntryZeroed(s.mem, table, t, v.ti);
      EntrySet(z, dir, di, Combined(table, 7), t, v.ti);
      if d == dir && v.di == di {
        assert Entry(s'.mem, t, v.ti) == 0;
      } else if Present(Entry(s.mem, d, v.di)) {
        assert t != dir && t != table;
      }
    }
  }

  lemma TableForCorrect(s: Space, dir: nat, page: Page)
    requires Inv(s) && MayTouch(s, dir, page)
    ensures var (s1, table) := TableFor(s, dir, page.di);
      && (!HasTable(s, dir, page) ==> s1 == s && table == 0)
      && (HasTable(s, dir, page) ==>
            && Inv(s1) && s1.dirs == s.dirs && s1.kernel == s.kernel && SameTranslations(s, s1)
            && Present(Entry(s1.mem, dir, page.di))
            && table == FrameOf(Entry(s1.mem, dir, page.di)) && table != 0)
  {
    var (s1, table) := TableFor(s, dir, page.di);
    FreshFrame(s.frames);
    TableForKeepsInv(s, dir, page);
    forall d, v: Page | d in s.dirs
      ensures GetPhys(s1.mem, d, v) == GetPhys(s.mem, d, v)
    {
      TableForKeepsPhys(s, dir, page.di, d, v);
    }
    if HasTable(s, dir, page) && !Present(Entry(s.mem, dir, page.di)) {
      TableEntries(s, dir, page.di, dir, page.di);
    }
  }

  // Writing one table entry changes the translation of that page through that table only.
  lemma WriteEntry(s: Space, dir: nat, page: Page, e: u32)
    requires Inv(s) && dir in s.dirs && Present(Entry(s.mem, dir, page.di))
    ensures var s' := s.(mem := SetEntry(s.mem, FrameOf(Entry(s.mem, dir, page.di)), page.ti, e));
      && Inv(s')
      && Remapped(s, s', dir, page, Target(e))
  {
    var table := FrameOf(Entry(s.mem, dir, page.di));
    var s' := s.(mem := SetEntry(s.mem, table, page.ti, e));
    forall d, i | d in s.dirs && 0 <= i < 0x400
      ensures Entry(s'.mem, d, i) == Entry(s.mem, d, i)
    {
      EntrySet(s.mem, table, page.ti, e, d, i);
    }
    assert TablesApart(s');
    forall d, v: Page | d in s.dirs
      ensures GetPhys(s'.mem, d, v) ==
        if Affects(dir, page, d, v) then Target(e) else GetPhys(s.mem, d, v)
    {
      var t := FrameOf(Entry(s.mem, d, v.di));
      EntrySet(s.mem, table, page.ti, e, t, v.ti);
    }
  }

  // ---------------------------------------------------------------- main theorems

  /** Mapping a page changes its translation and no other: in the directory named, and, below
      4 MiB, in every directory at once. It fails, changing nothing, only when a table is
      missing and every frame is in use. */
  lemma MapPageCorrect(s: Space, dir: nat, page: Page, phys: u32, flags: u32)
    requires Inv(s) && MayTouch(s, dir, page)
    ensures Inv(MapPage(s, dir, page, phys, flags))
    ensures MapPage(s, dir, page, phys, flags).dirs == s.dirs
    ensures !HasTable(s, dir, page) ==> MapPage(s, dir, page, phys, flags) == s
    ensures HasTable(s, dir, page) ==>
      Remapped(s, MapPage(s, dir, page, phys, flags), dir, page, Target(PageEntry(phys, flags)))
  {
    TableForCorrect(s, dir, page);
    if HasTable(s, dir, page) {
      var s1 := TableFor(s, dir, page.di).0;
      WriteEntry(s1, dir, page, PageEntry(phys, flags));
    }
  }

  /** The entry a mapped page is left with: the frame and flags asked for, in the table of its
      directory, which is new with flags 7 when there was none. */
  lemma MapPageEntry(s: Space, dir: nat, page: Page, phys: u32, flags: u32)
    requires Inv(s) && MayTouch(s, dir, page) && HasTable(s, dir, page)
    ensures var s' := MapPage(s, dir, page, phys, flags); var d := Entry(s'.mem, dir, page.di);
      && Present(d) && Entry(s'.mem, FrameOf(d), page.ti) == PageEntry(phys, flags)
      && (if Present(Entry(s.mem, dir, page.di)) then d == Entry(s.mem, dir, page.di)
          else d == Combined(FrameOf(d), 7) && FrameOf(d) !in s.frames.used)
  {
    TableForCorrect(s, dir, page);
    if !Present(Entry(s.mem, dir, page.di)) {
      TableEntries(s, dir, page.di, dir, page.di);
    }
    var (s1, table) := TableFor(s, dir, page.di);
    assert table in s1.frames.used - {0} - s1.dirs;
    var e := PageEntry(phys, flags);
    EntrySet(s1.mem, table, page.ti, e, dir, page.di);
    EntrySet(s1.mem, table, page.ti, e, table, page.ti);
  }

  /** Unmapping a page removes its translation and no other. */
  lemma UnmapPageCorrect(s: Space, dir: nat, page: Page)
    requires Inv(s) && MayTouch(s, dir, page)
    ensures Inv(UnmapPage(s, dir, page))
    ensures UnmapPage(s, dir, page).dirs == s.dirs
    ensures Remapped(s, UnmapPage(s, dir, page), dir, page, 0)
  {
    if Present(Entry(s.mem, dir, page.di)) {
      WriteEntry(s, dir, page, 0);
    } else {
      forall d, v: Page | d in s.dirs && Affects(dir, page, d, v)
        ensures GetPhys(s.mem, d, v) == 0
      {
        assert Entry(s.mem, d, v.di) == Entry(s.mem, dir, page.di);
      }
    }
  }

  lemma {:induction false} SharedEntries(mem: seq<u32>, kernel: nat, dir: nat, n: nat, d: nat, i: nat)
    requires dir != kernel && n <= 0x400 && i < 0x400
    requires dir * 0x400 + 0x400 <= |mem|
    ensures |Shared(mem, kernel, dir, n)| == |mem|
    ensures Entry(Shared(mem, kernel, dir, n), d, i) ==
      if d == dir && i < n && Present(Entry(mem, kernel, i)) then Entry(mem, kernel, i) else Entry(mem, d, i)
  {
    if n != 0 {
      SharedEntries(mem, kernel, dir, n - 1, d, i);
      SharedEntries(mem, kernel, dir, n - 1, kernel, n - 1);
      var m := Shared(mem, kernel, dir, n - 1);
      EntrySet(m, dir, n - 1, Entry(m, kernel, n - 1), d, i);
    }
  }

  // Every entry of every directory after a new one was made.
  lemma CreatedEntries(s: Space, d: nat, i: nat)
    requires Inv(s) && !Pmm.Full(s.frames) && i < 0x400
    ensures var (s', dir) := CreateDir(s);
      && dir != 0 && dir !in s.frames.used && dir < s.frames.total && dir !in s.dirs
      && s'.frames.used == s.frames.used + {dir} && s'.dirs == s.dirs + {dir} && s'.kernel == s.kernel
      && WellFormed(s')
      && Entry(s'.mem, d, i) ==
        if d == dir then (if Present(Entry(s.mem, s.kernel, i)) then Entry(s.mem, s.kernel, i) else 0)
        else Entry(s.mem, d, i)
  {
    FreshFrame(s.frames);
    var dir := CreateDir(s).1;
    var z := ZeroFrame(s.mem, dir);
    EntryZeroed(s.mem, dir, d, i);
    EntryZeroed(s.mem, dir, s.kernel, i);
    SharedEntries(z, s.kernel, dir, 0x400, d, i);
  }

  /** A new directory translates exactly what the kernel's does, and no translation changes. */
  lemma CreateDirCorrect(s: Space)
    requires Inv(s) && Present(Entry(s.mem, s.kernel, 0))
    ensures Inv(CreateDir(s).0)
    ensures Pmm.Full(s.frames) ==> CreateDir(s) == (s, 0)
    ensures !Pmm.Full(s.frames) ==>
      var (s', dir) := CreateDir(s);
      && dir !in s.frames.used && dir != 0 && s'.dirs == s.dirs + {dir}
      && (forall v: Page :: GetPhys(s'.mem, dir, v) == GetPhys(s.mem, s.kernel, v))
      && SameTranslations(s, s')
  {
    FreshFrame(s.frames);
    if !Pmm.Full(s.frames) {
      var (s', dir) := CreateDir(s);
      forall d, i | d in s'.dirs && 0 <= i < 0x400
        ensures Entry(s'.mem, d, i) ==
          if d != dir then Entry(s.mem, d, i) else if i == 0 then Entry(s.mem, s.kernel, 0) else 0
        ensures WellFormed(s') && dir !in s.frames.used && s'.frames.used == s.frames.used + {dir}
      {
        CreatedEntries(s, d, i);
      }
      assert s.kernel in s'.dirs;
      assert KernelShared(s');
      assert TablesOwned(s');
      assert TablesApart(s');
      forall v: Page
        ensures GetPhys(s'.mem, dir, v) == GetPhys(s.mem, s.kernel, v)
      {
        var t := FrameOf(Entry(s.mem, s.kernel, v.di));
        CreatedEntries(s, t, v.ti);
      }
      forall d, v: Page | d in s.dirs
        ensures GetPhys(s'.mem, d, v) == GetPhys(s.mem, d, v)
      {
        var t := FrameOf(Entry(s.mem, d, v.di));
        CreatedEntries(s, t, v.ti);
      }
    }
  }

  /** Below 4 MiB all directories translate alike. */
  lemma KernelRegionAgrees(s: Space, d: nat, d': nat, v: Page)
    requires Inv(s) && d in s.dirs && d' in s.dirs && v.di == 0
    ensures GetPhys(s.mem, d, v) == GetPhys(s.mem, d', v)
  {
    assert v.di == 0;
  }

  // ---------------------------------------------------------------- runs

  datatype Op =
    | CreateOp
    | MapOp(dir: nat, page: Page, phys: u32, flags: u32)
    | UnmapOp(dir: nat, page: Page)

  function Step(s: Space, op: Op): Space {
    match op
    case CreateOp => CreateDir(s).0
    case MapOp(dir, page, phys, flags) => MapPage(s, dir, page, phys, flags)
    case UnmapOp(dir, page) => UnmapPage(s, dir, page)
  }

  function Run(s: Space, ops: seq<Op>): Space
    decreases |ops|
  {
    if ops == [] then s else Run(Step(s, ops[0]), ops[1..])
  }

  /** Clients name only directories they were given. */
  ghost predicate Permitted(s: Space, ops: seq<Op>)
    decreases |ops|
  {
    ops == [] ||
    ((ops[0].CreateOp? || ops[0].dir in s.dirs - {s.kernel}) && Permitted(Step(s, ops[0]), ops[1..]))
  }

  lemma StepKeepsInv(s: Space, op: Op)
    requires Inv(s) && Present(Entry(s.mem, s.kernel, 0))
    requires op.CreateOp? || op.dir in s.dirs - {s.kernel}
    ensures var s' := Step(s, op);
      Inv(s') && s'.kernel == s.kernel && s.dirs <= s'.dirs && Present(Entry(s'.mem, s'.kernel, 0))
  {
    FreshFrame(s.frames);
    match op
    case CreateOp => CreateDirCorrect(s);
    case MapOp(dir, page, phys, flags) => MapPageCorrect(s, dir, page, phys, flags);
    case UnmapOp(dir, page) => UnmapPageCorrect(s, dir, page);
  }

  lemma StepIsolates(s: Space, op: Op, d: nat, v: Page)
    requires Inv(s) && Present(Entry(s.mem, s.kernel, 0))
    requires op.CreateOp? || op.dir in s.dirs - {s.kernel}
    requires d in s.dirs && v.di != 0 && !Names(op, d, v)
    ensures GetPhys(Step(s, op).mem, d, v) == GetPhys(s.mem, d, v)
  {
    match op
    case CreateOp => CreateDirCorrect(s);
    case MapOp(dir, page, phys, flags) => MapPageCorrect(s, dir, page, phys, flags);
    case UnmapOp(dir, page) => UnmapPageCorrect(s, dir, page);
  }

  predicate Names(op: Op, dir: nat, v: Page) {
    !op.CreateOp? && op.dir == dir && op.page == v
  }

  /** Isolation over whole runs: a page at or above 4 MiB keeps its translation in a directory
      through every permitted run that never names that page of that directory. */
  lemma {:induction false} RunIsolates(s: Space, ops: seq<Op>, d: nat, v: Page)
    requires Inv(s) && Present(Entry(s.mem, s.kernel, 0)) && Permitted(s, ops)
    requires d in s.dirs && v.di != 0
    requires forall op | op in ops :: !Names(op, d, v)
    ensures Inv(Run(s, ops)) && s.dirs <= Run(s, ops).dirs
    ensures GetPhys(Run(s, ops).mem, d, v) == GetPhys(s.mem, d, v)
    decreases |ops|
  {
    if ops != [] {
      StepKeepsInv(s, ops[0]);
      StepIsolates(s, ops[0], d, v);
      RunIsolates(Step(s, ops[0]), ops[1..], d, v);
    }
  }
}
