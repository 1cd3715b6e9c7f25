/** Processes and the memory they are given (src/kernel/process.c over src/mm/vmm.c and src/mm/pmm.c):
    process_create makes a directory, takes two frames for stacks and maps one of them; process_fork
    does that and then makes another directory. */
module ProcessMemory {
  import opened Machine
  import opened PageMap
  import F = FrameSharing
  import opened ProcessTable
  import Pmm
  import Schedule

  /** The slots, the memory, and the frames ever taken for stacks. */
  datatype Kernel = Kernel(table: Table, world: F.World, stacks: set<nat>)

  /** The page below 0xBFFFE000, where every process has its user stack. */
  const STACK: Page := Page(0x2FF, 0x3FD)

  lemma StackPage()
    ensures PageOf(USER_STACK - 0x1000) == STACK
  {
  }

  /** Where a directory's stack page is, 0 when it has none. */
  function StackAt(s: Space, dir: nat): u32 {
    GetPhys(s.mem, dir, STACK)
  }

  // ---------------------------------------------------------------- operations

  /** What process_create takes and maps: the memory after it, the directory, and the two frames. */
  function Equip(w: F.World): (F.World, nat, set<nat>) {
    var dir := CreateDir(w.space).1;
    var w1 := F.Step(w, F.PageEv(CreateOp));
    var kernelStack := Pmm.Alloc(w1.space.frames).1;
    var w2 := F.Step(w1, F.TakeEv);
    var userStack := Pmm.Alloc(w2.space.frames).1;
    var w3 := F.Step(w2, F.TakeEv);
    (if userStack == 0 then w3 else F.Step(w3, F.PageEv(MapStack(dir, userStack))), dir, {kernelStack, userStack} - {0})
  }

  function MapStack(dir: nat, frame: nat): Op {
    MapOp(dir, STACK, Wrap(frame * 0x1000), PAGE_PRESENT + PAGE_WRITE + PAGE_USER)
  }

  predicate Roomy(t: Table) {
    t.count < MAX_PROCS && FirstUnused(t.procs) < |t.procs|
  }

  function CreateProcess(k: Kernel, entry: u32, priority: u32): Kernel
    requires Schedule.Shaped(k.table)
  {
    if !Roomy(k.table) then k else
    var (w, dir, taken) := Equip(k.world);
    Kernel(Create(k.table, entry, priority, dir).0, w, k.stacks + taken)
  }

  function ForkProcess(k: Kernel, parentPid: int): Kernel
    requires Schedule.Shaped(k.table)
  {
    if FindPid(k.table.procs, parentPid) == |k.table.procs| || !Roomy(k.table) then k else
    var (w, dir, taken) := Equip(k.world);
    Kernel(Fork(k.table, parentPid, dir, CreateDir(w.space).1).0, F.Step(w, F.PageEv(CreateOp)), k.stacks + taken)
  }

  datatype KernelEvent =
    | CreateEv(entry: u32, priority: u32)
    | ForkEv(parentPid: int)
    | TableEv(slotEv: Schedule.Event)
    | MemoryEv(memEv: F.Event)

  /** Ticks, exits, exec and signals; paging operations that leave the stack page alone; and other
      clients that free none of the stacks. */
  predicate Proper(k: Kernel, ev: KernelEvent) {
    match ev
    case TableEv(e) => !e.CreateEv? && !e.ForkEv?
    case MemoryEv(e) =>
      && F.Allowed(k.world, e)
      && (e.PageEv? && !e.op.CreateOp? ==> e.op.page != STACK)
      && (e.GiveEv? ==> e.given !in k.stacks)
    case _ => true
  }

  function KernelStep(k: Kernel, ev: KernelEvent): (k': Kernel)
    requires Schedule.Shaped(k.table)
    ensures Schedule.Shaped(k'.table)
  {
    match ev
    case CreateEv(entry, priority) => CreateProcess(k, entry, priority)
    case ForkEv(parentPid) => ForkProcess(k, parentPid)
    case TableEv(e) => k.(table := Schedule.Step(k.table, e))
    case MemoryEv(e) => k.(world := F.Step(k.world, e))
  }

  function KernelRun(k: Kernel, evs: seq<KernelEvent>): (k': Kernel)
    requires Schedule.Shaped(k.table)
    ensures Schedule.Shaped(k'.table)
    decreases |evs|
  {
    if evs == [] then k else KernelRun(KernelStep(k, evs[0]), evs[1..])
  }

  predicate AllProper(k: Kernel, evs: seq<KernelEvent>)
    requires Schedule.Shaped(k.table)
    decreases |evs|
  {
    evs == [] || (Proper(k, evs[0]) && AllProper(KernelStep(k, evs[0]), evs[1..]))
  }

  // ---------------------------------------------------------------- invariant

  ghost predicate KernelInv(k: Kernel) {
    && F.Inv(k.world) && k.stacks <= k.world.held && StacksApart(k.world.space, k.stacks)
    && Schedule.Numbered(k.table) && DirsOwned(k.table.procs, k.world.space)
  }

  /** Every stack page is on a stack frame, and no frame is the stack page of two directories. */
  ghost predicate StacksApart(s: Space, stacks: set<nat>) {
    && (forall d | d in s.dirs && StackAt(s, d) != 0 :: StackAt(s, d) % 0x1000 == 0 && StackAt(s, d) / 0x1000 in stacks)
    && (forall d, d' | d in s.dirs && d' in s.dirs && d != d' && StackAt(s, d) != 0 :: StackAt(s, d) != StackAt(s, d'))
  }

  /** Every slot has a directory of its own, or none. */
  ghost predicate DirsOwned(procs: seq<Proc>, s: Space) {
    && (forall i | 0 <= i < |procs| :: procs[i].pageDir == 0 || procs[i].pageDir in s.dirs - {s.kernel})
    && (forall i, j | 0 <= i < j < |procs| && procs[i].pageDir != 0 :: procs[i].pageDir != procs[j].pageDir)
  }

  // ---------------------------------------------------------------- memory

  /** What a step, or several, may do to the memory that is already there: directories and held frames
      stay, and no stack page moves. */
  ghost predicate Extends(w: F.World, w': F.World) {
    && w.space.dirs <= w'.space.dirs && w'.space.kernel == w.space.kernel
    && w.space.frames.used <= w'.space.frames.used && w.held <= w'.held
    && (forall d | d in w.space.dirs :: StackAt(w'.space, d) == StackAt(w.space, d))
  }

  // No directory is the kernel's at the stack page.
  lemma {:induction false} KernelHasNone(s: Space)
    requires PageMap.Inv(s)
    ensures StackAt(s, s.kernel) == 0
  {
    assert !Present(Entry(s.mem, s.kernel, STACK.di));
  }

  // A new directory has no stack page.
  lemma {:induction false} NewDirectory(w: F.World)
    requires F.Inv(w)
    ensures var w' := F.Step(w, F.PageEv(CreateOp)); var dir := CreateDir(w.space).1;
      && F.Inv(w') && Extends(w, w') && w'.held == w.held
      && w'.space.dirs == w.space.dirs + (if dir == 0 then {} else {dir})
      && (dir == 0 ==> Pmm.Full(w'.space.frames))
      && (dir != 0 ==> dir !in w.space.frames.used && StackAt(w'.space, dir) == 0)
  {
    FreshFrame(w.space.frames);
    F.StepKeepsInv(w, F.PageEv(CreateOp));
    CreateDirCorrect(w.space);
    KernelHasNone(w.space);
  }

  lemma {:induction false} NewFrame(w: F.World)
    requires F.Inv(w)
    ensures var w' := F.Step(w, F.TakeEv); var page := Pmm.Alloc(w.space.frames).1;
      && F.Inv(w') && Extends(w, w') && w'.space.dirs == w.space.dirs
      && (page == 0 <==> Pmm.Full(w.space.frames)) && (page == 0 ==> w' == w)
      && (page != 0 ==> page !in w.space.frames.used && page in w'.held && page < 0x10_0000)
  {
    FreshFrame(w.space.frames);
    F.TakeKeeps(w);
  }

  // Mapping a frame as the stack page of one directory.
  lemma {:induction false} StackMapped(w: F.World, dir: nat, frame: nat)
    requires F.Inv(w) && dir in w.space.dirs - {w.space.kernel} && 0 < frame < 0x10_0000
    ensures var w' := F.Step(w, F.PageEv(MapStack(dir, frame)));
      && F.Inv(w') && w'.space.dirs == w.space.dirs && w'.space.kernel == w.space.kernel
      && w'.held == w.held && w.space.frames.used <= w'.space.frames.used
      && (forall d | d in w.space.dirs && d != dir :: StackAt(w'.space, d) == StackAt(w.space, d))
      && StackAt(w'.space, dir) == if HasTable(w.space, dir, STACK) then frame * 0x1000 else StackAt(w.space, dir)
  {
    var op := MapStack(dir, frame);
    F.StepKeepsInv(w, F.PageEv(op));
    MapPageCorrect(w.space, dir, STACK, op.phys, op.flags);
    FrameAddress(frame, op.flags);
    F.TableMade(w.space, op, dir, 0);
  }

  lemma FrameAddress(frame: nat, flags: u32)
    requires 0 < frame < 0x10_0000 && flags % 2 == 1
    ensures Target(PageEntry(Wrap(frame * 0x1000), flags)) == frame * 0x1000
  {
    WrapSmall(frame * 0x1000);
    TargetOfPageEntry(frame * 0x1000, flags);
  }

  /** process_create leaves the memory of others alone; its directory is new, and its stack page, if it
      gets one, is on a frame nobody had. */
  ghost predicate Equipped(w: F.World, w': F.World, dir: nat, taken: set<nat>) {
    && Extends(w, w') && w'.space.dirs == w.space.dirs + (if dir == 0 then {} else {dir})
    && taken !! w.space.frames.used && taken <= w'.held
    && (dir != 0 ==>
          && dir !in w.space.frames.used
          && (StackAt(w'.space, dir) != 0 ==>
                StackAt(w'.space, dir) % 0x1000 == 0 && StackAt(w'.space, dir) / 0x1000 in taken))
  }

  lemma {:induction false} EquipExtends(w: F.World)
    requires F.Inv(w)
    ensures var (w', dir, taken) := Equip(w); F.Inv(w') && Equipped(w, w', dir, taken)
  {
    var dir := CreateDir(w.space).1;
    NewDirectory(w);
    var w1 := F.Step(w, F.PageEv(CreateOp));
    NewFrame(w1);
    var kernelStack := Pmm.Alloc(w1.space.frames).1;
    var w2 := F.Step(w1, F.TakeEv);
    NewFrame(w2);
    var userStack := Pmm.Alloc(w2.space.frames).1;
    var w3 := F.Step(w2, F.TakeEv);
    TakenExtends(w, w1, w2, w3, dir, kernelStack, userStack);
    if userStack != 0 {
      assert dir != 0;
      DirNotKernel(w, w3, dir);
      StackMapped(w3, dir, userStack);
      MappedExtends(w, w3, F.Step(w3, F.PageEv(MapStack(dir, userStack))), dir, kernelStack, userStack);
    }
  }

  lemma DirNotKernel(w: F.World, w3: F.World, dir: nat)
    requires F.Inv(w) && dir !in w.space.frames.used && w3.space.kernel == w.space.kernel
    ensures dir != w3.space.kernel
  {
  }

  lemma TakenExtends(w: F.World, w1: F.World, w2: F.World, w3: F.World, dir: nat, a: nat, b: nat)
    requires Extends(w, w1) && Extends(w1, w2) && Extends(w2, w3)
    requires w1.space.dirs == w.space.dirs + (if dir == 0 then {} else {dir})
    requires w2.space.dirs == w1.space.dirs == w3.space.dirs
    requires dir != 0 ==> dir !in w.space.frames.used && StackAt(w1.space, dir) == 0
    requires a != 0 ==> a !in w1.space.frames.used && a in w2.held
    requires b != 0 ==> b !in w2.space.frames.used && b in w3.held
    ensures Equipped(w, w3, dir, {a, b} - {0}) && (dir != 0 ==> StackAt(w3.space, dir) == 0)
  {
    if dir != 0 {
      assert dir in w1.space.dirs && dir in w2.space.dirs;
    }
  }

  lemma MappedExtends(w: F.World, w3: F.World, w4: F.World, dir: nat, a: nat, b: nat)
    requires Equipped(w, w3, dir, {a, b} - {0}) && dir != 0 && StackAt(w3.space, dir) == 0 && 0 < b
    requires w4.space.dirs == w3.space.dirs && w4.space.kernel == w3.space.kernel && w4.held == w3.held
    requires w3.space.frames.used <= w4.space.frames.used && w.space.dirs <= w.space.frames.used
    requires forall d | d in w3.space.dirs && d != dir :: StackAt(w4.space, d) == StackAt(w3.space, d)
    requires StackAt(w4.space, dir) == 0 || StackAt(w4.space, dir) == b * 0x1000
    ensures Equipped(w, w4, dir, {a, b} - {0})
  {
  }

  // ---------------------------------------------------------------- every step

  lemma StacksGrow(w: F.World, w': F.World, dir: nat, taken: set<nat>, stacks: set<nat>)
    requires Equipped(w, w', dir, taken) && StacksApart(w.space, stacks) && stacks <= w.space.frames.used
    ensures StacksApart(w'.space, stacks + taken)
  {
  }

  lemma StacksStay(w: F.World, w': F.World, dir: nat, stacks: set<nat>)
    requires Extends(w, w') && StacksApart(w.space, stacks)
    requires w'.space.dirs == w.space.dirs + (if dir == 0 then {} else {dir})
    requires dir != 0 ==> StackAt(w'.space, dir) == 0
    ensures StacksApart(w'.space, stacks)
  {
  }

  // A slot gets a directory no slot has.
  lemma DirGiven(procs: seq<Proc>, procs': seq<Proc>, i: nat, s: Space, s': Space, dir: nat)
    requires DirsOwned(procs, s) && i < |procs| == |procs'| && procs'[i].pageDir == dir
    requires forall j | 0 <= j < |procs| && j != i :: procs'[j].pageDir == procs[j].pageDir
    requires s.dirs <= s'.dirs && s'.kernel == s.kernel && s.kernel in s.dirs
    requires dir == 0 || dir in s'.dirs - s.dirs
    ensures DirsOwned(procs', s')
  {
  }

  lemma {:induction false} CreateKeepsInv(k: Kernel, entry: u32, priority: u32)
    requires KernelInv(k)
    ensures KernelInv(CreateProcess(k, entry, priority))
  {
    if Roomy(k.table) {
      var (w, dir, taken) := Equip(k.world);
      EquipExtends(k.world);
      StacksGrow(k.world, w, dir, taken, k.stacks);
      Schedule.StepKeepsNumbered(k.table, Schedule.CreateEv(entry, priority, dir));
      var t' := Create(k.table, entry, priority, dir).0;
      DirGiven(k.table.procs, t'.procs, FirstUnused(k.table.procs), k.world.space, w.space, dir);
    }
  }

  // The directories after a fork: only the child's slot has another one.
  lemma {:induction false} ForkDirs(t: Table, parentPid: int, dir: nat, dir2: nat)
    requires Schedule.Numbered(t) && Roomy(t) && FindPid(t.procs, parentPid) < 64
    ensures var t' := Fork(t, parentPid, dir, dir2).0; var i := FirstUnused(t.procs);
      && |t'.procs| == 64 && t'.procs[i].pageDir == dir2 && t'.procs[i].pid == t.nextPid
      && forall j | 0 <= j < 64 && j != i :: t'.procs[j].pageDir == t.procs[j].pageDir
  {
    Schedule.ForkChild(t, FindPid(t.procs, parentPid), dir);
  }

  // The memory after a fork.
  lemma {:induction false} ForkMemory(k: Kernel)
    requires KernelInv(k)
    ensures var (w, dir, taken) := Equip(k.world);
      var w2 := F.Step(w, F.PageEv(CreateOp)); var dir2 := CreateDir(w.space).1;
      && F.Inv(w2) && k.stacks + taken <= w2.held && StacksApart(w2.space, k.stacks + taken)
      && k.world.space.dirs <= w2.space.dirs && w2.space.kernel == k.world.space.kernel
      && (dir2 == 0 || (dir2 in w2.space.dirs - k.world.space.dirs && StackAt(w2.space, dir2) == 0))
  {
    var (w, dir, taken) := Equip(k.world);
    EquipExtends(k.world);
    StacksGrow(k.world, w, dir, taken, k.stacks);
    NewDirectory(w);
    StacksStay(w, F.Step(w, F.PageEv(CreateOp)), CreateDir(w.space).1, k.stacks + taken);
  }

  lemma {:induction false} ForkKeepsInv(k: Kernel, parentPid: int)
    requires KernelInv(k)
    ensures KernelInv(ForkProcess(k, parentPid))
  {
    if FindPid(k.table.procs, parentPid) < 64 && Roomy(k.table) {
      ForkMemory(k);
      var (w, dir, taken) := Equip(k.world);
      ForkTable(k, parentPid, dir, CreateDir(w.space).1, F.Step(w, F.PageEv(CreateOp)).space);
    }
  }

  lemma {:induction false} ForkTable(k: Kernel, parentPid: int, dir: nat, dir2: nat, s: Space)
    requires Schedule.Numbered(k.table) && Roomy(k.table) && FindPid(k.table.procs, parentPid) < 64
    requires DirsOwned(k.table.procs, k.world.space) && k.world.space.kernel in k.world.space.dirs
    requires k.world.space.dirs <= s.dirs && s.kernel == k.world.space.kernel
    requires dir2 == 0 || dir2 in s.dirs - k.world.space.dirs
    ensures var t' := Fork(k.table, parentPid, dir, dir2).0; Schedule.Numbered(t') && DirsOwned(t'.procs, s)
  {
    Schedule.StepKeepsNumbered(k.table, Schedule.ForkEv(parentPid, dir, dir2));
    ForkDirs(k.table, parentPid, dir, dir2);
    var t' := Fork(k.table, parentPid, dir, dir2).0;
    DirGiven(k.table.procs, t'.procs, FirstUnused(k.table.procs), k.world.space, s, dir2);
  }

  lemma {:induction false} TableKeepsInv(k: Kernel, e: Schedule.Event)
    requires KernelInv(k) && !e.CreateEv? && !e.ForkEv?
    ensures KernelInv(k.(table := Schedule.Step(k.table, e)))
  {
    Schedule.StepKeepsNumbered(k.table, e);
    var t' := Schedule.Step(k.table, e);
    assert forall i | 0 <= i < 64 :: t'.procs[i].pageDir == k.table.procs[i].pageDir;
  }

  lemma {:induction false} MemoryExtends(k: Kernel, e: F.Event)
    requires KernelInv(k) && Proper(k, MemoryEv(e))
    ensures var w' := F.Step(k.world, e);
      && F.Inv(w') && k.stacks <= w'.held && StacksApart(w'.space, k.stacks)
      && k.world.space.dirs <= w'.space.dirs && w'.space.kernel == k.world.space.kernel
      && (forall d | d in k.world.space.dirs :: StackAt(w'.space, d) == StackAt(k.world.space, d))
  {
    F.StepKeepsInv(k.world, e);
    if e.PageEv? && e.op.CreateOp? {
      NewDirectory(k.world);
      StacksStay(k.world, F.Step(k.world, e), CreateDir(k.world.space).1, k.stacks);
    } else {
      SameDirs(k.world, e);
      forall d | d in k.world.space.dirs
        ensures StackAt(F.Step(k.world, e).space, d) == StackAt(k.world.space, d)
      {
        F.StepIsolates(k.world, e, d, STACK);
      }
    }
  }

  lemma {:induction false} SameDirs(w: F.World, e: F.Event)
    requires F.Inv(w) && F.Allowed(w, e) && !(e.PageEv? && e.op.CreateOp?)
    ensures F.Step(w, e).space.dirs == w.space.dirs
  {
    if e.PageEv? && e.op.MapOp? {
      F.TableMade(w.space, e.op, e.op.dir, 0);
    }
  }

  lemma {:induction false} StepKeepsInv(k: Kernel, ev: KernelEvent)
    requires KernelInv(k) && Proper(k, ev)
    ensures KernelInv(KernelStep(k, ev))
  {
    match ev
    case CreateEv(entry, priority) => CreateKeepsInv(k, entry, priority);
    case ForkEv(parentPid) => ForkKeepsInv(k, parentPid);
    case TableEv(e) => TableKeepsInv(k, e);
    case MemoryEv(e) => MemoryExtends(k, e);
  }

  lemma {:induction false} StepKeepsStack(k: Kernel, ev: KernelEvent, d: nat)
    requires KernelInv(k) && Proper(k, ev) && d in k.world.space.dirs
    ensures d in KernelStep(k, ev).world.space.dirs
    ensures StackAt(KernelStep(k, ev).world.space, d) == StackAt(k.world.space, d)
  {
    match ev
    case CreateEv(entry, priority) => EquipExtends(k.world);
    case ForkEv(parentPid) =>
      EquipExtends(k.world);
      NewDirectory(Equip(k.world).0);
    case TableEv(e) =>
    case MemoryEv(e) => MemoryExtends(k, e);
  }

  // ---------------------------------------------------------------- runs

  /** process_init's table, before the idle process, over memory that holds the kernel's directory. */
  lemma {:induction false} BootInv(w: F.World, current: Slot)
    requires F.Inv(w) && w.space.dirs == {w.space.kernel}
    ensures KernelInv(Kernel(Table(seq(64, _ => NO_PROC), 1, current, 0), w, {}))
  {
    KernelHasNone(w.space);
  }

  lemma {:induction false} RunKeepsInv(k: Kernel, evs: seq<KernelEvent>)
    requires KernelInv(k) && AllProper(k, evs)
    ensures KernelInv(KernelRun(k, evs))
    decreases |evs|
  {
    if evs != [] {
      StepKeepsInv(k, evs[0]);
      RunKeepsInv(KernelStep(k, evs[0]), evs[1..]);
    }
  }

  /** In every state of every run of creates, forks, exits, execs, ticks, signals, paging operations and
      other clients of the allocator, no two slots have their stack page on the same frame, and every
      stack page is on a frame that is still held, so that no directory, table or other client has it. */
  lemma {:induction false} NoSharedStacks(k: Kernel, evs: seq<KernelEvent>, i: Slot, j: Slot)
    requires KernelInv(k) && AllProper(k, evs)
    requires var k' := KernelRun(k, evs); i != j && k'.table.procs[i].pageDir != 0 && k'.table.procs[j].pageDir != 0
    ensures var k' := KernelRun(k, evs); var s := k'.world.space;
      var a, b := StackAt(s, k'.table.procs[i].pageDir), StackAt(s, k'.table.procs[j].pageDir);
      && (a != 0 ==> a != b && a % 0x1000 == 0 && a / 0x1000 in k'.stacks)
      && k'.stacks <= k'.world.held && F.HeldApart(s, k'.world.held)
  {
    RunKeepsInv(k, evs);
    var k' := KernelRun(k, evs);
    assert k'.table.procs[i].pageDir != k'.table.procs[j].pageDir;
  }

  /** A directory's stack page stays where it is through every run. */
  lemma {:induction false} RunKeepsStack(k: Kernel, evs: seq<KernelEvent>, d: nat)
    requires KernelInv(k) && AllProper(k, evs) && d in k.world.space.dirs
    ensures d in KernelRun(k, evs).world.space.dirs
    ensures StackAt(KernelRun(k, evs).world.space, d) == StackAt(k.world.space, d)
    decreases |evs|
  {
    if evs != [] {
      StepKeepsInv(k, evs[0]);
      StepKeepsStack(k, evs[0], d);
      RunKeepsStack(KernelStep(k, evs[0]), evs[1..], d);
    }
  }

  /** The child of a fork has no stack page, then or after any run: its second directory replaces the one
      the stack was mapped in. */
  lemma {:induction false} ForkHasNoStack(k: Kernel, parentPid: int, evs: seq<KernelEvent>)
    requires KernelInv(k) && Roomy(k.table) && FindPid(k.table.procs, parentPid) < 64
    requires AllProper(ForkProcess(k, parentPid), evs)
    ensures var k' := ForkProcess(k, parentPid); var i := FirstUnused(k.table.procs);
      && i < 64 && k'.table.procs[i].pid == k.table.nextPid
      && var dir := k'.table.procs[i].pageDir; dir == 0 || StackAt(KernelRun(k', evs).world.space, dir) == 0
  {
    ForkMemory(k);
    var (w, dir, taken) := Equip(k.world);
    var dir2 := CreateDir(w.space).1;
    ForkDirs(k.table, parentPid, dir, dir2);
    ForkKeepsInv(k, parentPid);
    if dir2 != 0 {
      RunKeepsStack(ForkProcess(k, parentPid), evs, dir2);
    }
  }

  // ---------------------------------------------------------------- when there is a stack page

  /** The frames left. */
  ghost function Left(s: Space): nat {
    |Pmm.Below(s.frames.total) - s.frames.used|
  }

  lemma {:induction false} OneLess(s: Space, s': Space, p: nat)
    requires PageMap.Inv(s) && s'.frames.total == s.frames.total
    requires if p == 0 then s'.frames == s.frames && Pmm.Full(s.frames)
             else p !in s.frames.used && p < s.frames.total && s'.frames.used == s.frames.used + {p}
    ensures p == 0 <==> Left(s) == 0
    ensures Left(s') == if p == 0 then 0 else Left(s) - 1
  {
    var all := Pmm.Below(s.frames.total);
    if p == 0 {
      Pmm.FullMeans(s.frames);
      assert all - s.frames.used == {};
    } else {
      assert all - s'.frames.used == (all - s.frames.used) - {p};
      assert p in all - s.frames.used;
    }
  }

  lemma {:induction false} CreateCounts(w: F.World)
    requires F.Inv(w)
    ensures var w' := F.Step(w, F.PageEv(CreateOp)); var dir := CreateDir(w.space).1;
      && F.Inv(w') && (dir == 0 <==> Left(w.space) == 0)
      && Left(w'.space) == (if dir == 0 then 0 else Left(w.space) - 1)
      && (dir != 0 ==>
            && dir in w'.space.dirs - {w'.space.kernel} && StackAt(w'.space, dir) == 0
            && !Present(Entry(w'.space.mem, dir, STACK.di)))
  {
    FreshFrame(w.space.frames);
    NewDirectory(w);
    OneLess(w.space, F.Step(w, F.PageEv(CreateOp)).space, CreateDir(w.space).1);
    if !Pmm.Full(w.space.frames) {
      CreatedEntries(w.space, CreateDir(w.space).1, STACK.di);
    }
  }

  lemma {:induction false} TakeCounts(w: F.World)
    requires F.Inv(w)
    ensures var w' := F.Step(w, F.TakeEv); var p := Pmm.Alloc(w.space.frames).1;
      && F.Inv(w') && (p == 0 <==> Left(w.space) == 0) && Left(w'.space) == (if p == 0 then 0 else Left(w.space) - 1)
      && w'.space.mem == w.space.mem && w'.space.dirs == w.space.dirs && w'.space.kernel == w.space.kernel
      && p < 0x10_0000
  {
    FreshFrame(w.space.frames);
    NewFrame(w);
    OneLess(w.space, F.Step(w, F.TakeEv).space, Pmm.Alloc(w.space.frames).1);
  }

  lemma {:induction false} FullIsNone(s: Space)
    requires PageMap.Inv(s)
    ensures Pmm.Full(s.frames) <==> Left(s) == 0
  {
    Pmm.FullMeans(s.frames);
    assert Pmm.Full(s.frames) ==> Pmm.Below(s.frames.total) - s.frames.used == {};
    if !Pmm.Full(s.frames) {
      assert Pmm.LowestClear(s.frames, 0) in Pmm.Below(s.frames.total) - s.frames.used;
    }
  }

  /** A new process has a stack page exactly when four frames are left: for its directory, its two
      stacks, and the table the stack page needs. */
  lemma {:induction false} StackIffFourLeft(w: F.World)
    requires F.Inv(w)
    ensures var (w', dir, taken) := Equip(w);
      dir != 0 && StackAt(w'.space, dir) != 0 <==> 4 <= Left(w.space)
  {
    var dir := CreateDir(w.space).1;
    CreateCounts(w);
    var w1 := F.Step(w, F.PageEv(CreateOp));
    TakeCounts(w1);
    var w2 := F.Step(w1, F.TakeEv);
    TakeCounts(w2);
    var w3 := F.Step(w2, F.TakeEv);
    var userStack := Pmm.Alloc(w2.space.frames).1;
    if userStack != 0 {
      StackMapped(w3, dir, userStack);
      FullIsNone(w3.space);
    }
  }
}
