/** Page tables and other clients of one frame allocator (src/mm/vmm.c over src/mm/pmm.c): between
    page-table operations others take frames, write words of the frames they hold, and free them. */
module FrameSharing {
  import opened Machine
  import opened PageMap
  import Pmm

  /** The frames the other clients hold. */
  datatype World = World(space: Space, held: set<nat>)

  datatype Event =
    | PageEv(op: Op)
    | TakeEv
    | StoreEv(frame: nat, i: nat, value: u32)
    | GiveEv(given: nat)

  function Step(w: World, ev: Event): World {
    match ev
    case PageEv(op) => w.(space := PageMap.Step(w.space, op))
    case TakeEv =>
      var (f, page) := Pmm.Alloc(w.space.frames);
      World(w.space.(frames := f), if page == 0 then w.held else w.held + {page})
    case StoreEv(frame, i, value) => w.(space := w.space.(mem := SetEntry(w.space.mem, frame, i, value)))
    case GiveEv(page) => World(w.space.(frames := Pmm.Free(w.space.frames, page)), w.held - {page})
  }

  /** Directories are named by those they were given to, words and frames by those who hold them. */
  predicate Allowed(w: World, ev: Event) {
    match ev
    case PageEv(op) => op.CreateOp? || op.dir in w.space.dirs - {w.space.kernel}
    case TakeEv => true
    case StoreEv(frame, i, _) => frame in w.held && i < 0x400
    case GiveEv(page) => page in w.held
  }

  predicate AllAllowed(w: World, evs: seq<Event>)
    decreases |evs|
  {
    evs == [] || (Allowed(w, evs[0]) && AllAllowed(Step(w, evs[0]), evs[1..]))
  }

  function Run(w: World, evs: seq<Event>): World
    decreases |evs|
  {
    if evs == [] then w else Run(Step(w, evs[0]), evs[1..])
  }

  // ---------------------------------------------------------------- invariant

  /** No frame held is a directory, or a table a directory points at. */
  ghost predicate HeldApart(s: Space, held: set<nat>) {
    && held <= s.frames.used - {0} && held !! s.dirs
    && forall d, i | d in s.dirs && 0 <= i < 0x400 && Present(Entry(s.mem, d, i)) ::
      FrameOf(Entry(s.mem, d, i)) !in held
  }

  ghost predicate Inv(w: World) {
    && PageMap.Inv(w.space) && Present(Entry(w.space.mem, w.space.kernel, 0))
    && HeldApart(w.space, w.held)
  }

  // ---------------------------------------------------------------- page-table operations

  // The table that mapping a page creates is a frame nobody had, and it is the only one.
  lemma {:induction false} MapDirectories(s: Space, op: Op, d: nat, i: nat)
    requires PageMap.Inv(s) && op.MapOp? && op.dir in s.dirs && d in s.dirs && i < 0x400
    ensures var e, e' := Entry(s.mem, d, i), Entry(PageMap.Step(s, op).mem, d, i);
      e' == e || FrameOf(e') !in s.frames.used
  {
    TableMade(s, op, d, i);
    var (s1, table) := TableFor(s, op.dir, op.page.di);
    if table != 0 {
      EntrySet(s1.mem, table, op.page.ti, PageEntry(op.phys, op.flags), d, i);
    }
  }

  lemma {:induction false} TableMade(s: Space, op: Op, d: nat, i: nat)
    requires PageMap.Inv(s) && op.MapOp? && op.dir in s.dirs && d in s.dirs && i < 0x400
    ensures var (s1, table) := TableFor(s, op.dir, op.page.di);
      && s.frames.used <= s1.frames.used && s1.dirs == s.dirs
      && (table != 0 ==> table !in s.dirs)
      && (Entry(s1.mem, d, i) == Entry(s.mem, d, i) || FrameOf(Entry(s1.mem, d, i)) !in s.frames.used)
  {
    FreshFrame(s.frames);
    if !Present(Entry(s.mem, op.dir, op.page.di)) && !Pmm.Full(s.frames) {
      TableEntries(s, op.dir, op.page.di, d, i);
    }
  }

  // A frame in use that is neither the directory nor its table keeps its words.
  lemma {:induction false} MapLeaves(s: Space, op: Op, g: nat, j: nat)
    requires PageMap.Inv(s) && op.MapOp? && op.dir in s.dirs && g in s.frames.used && g != op.dir && j < 0x400
    requires var e := Entry(s.mem, op.dir, op.page.di); Present(e) ==> g != FrameOf(e)
    ensures Entry(PageMap.Step(s, op).mem, g, j) == Entry(s.mem, g, j)
  {
    TableLeaves(s, op.dir, op.page.di, g, j);
    var (s1, table) := TableFor(s, op.dir, op.page.di);
    EntrySet(s1.mem, table, op.page.ti, PageEntry(op.phys, op.flags), g, j);
  }

  lemma {:induction false} TableLeaves(s: Space, dir: nat, di: nat, g: nat, j: nat)
    requires PageMap.Inv(s) && dir in s.dirs && di < 0x400 && g in s.frames.used && g != dir && j < 0x400
    requires Present(Entry(s.mem, dir, di)) ==> g != FrameOf(Entry(s.mem, dir, di))
    ensures var (s1, table) := TableFor(s, dir, di);
      (table != 0 ==> table != g) && Entry(s1.mem, g, j) == Entry(s.mem, g, j)
  {
    FreshFrame(s.frames);
    if !Present(Entry(s.mem, dir, di)) && !Pmm.Full(s.frames) {
      var table := Pmm.Alloc(s.frames).1;
      EntryZeroed(s.mem, table, g, j);
      EntrySet(ZeroFrame(s.mem, table), dir, di, Combined(table, 7), g, j);
    }
  }

  lemma {:induction false} MapKeepsHeld(w: World, op: Op)
    requires Inv(w) && op.MapOp? && Allowed(w, PageEv(op))
    ensures HeldApart(PageMap.Step(w.space, op), w.held)
    ensures forall g, j | g in w.held && 0 <= j < 0x400 ::
      Entry(PageMap.Step(w.space, op).mem, g, j) == Entry(w.space.mem, g, j)
  {
    var s, s' := w.space, PageMap.Step(w.space, op);
    TableMade(s, op, op.dir, op.page.di);
    MapPageCorrect(s, op.dir, op.page, op.phys, op.flags);
    forall d, i | d in s'.dirs && 0 <= i < 0x400 && Present(Entry(s'.mem, d, i))
      ensures FrameOf(Entry(s'.mem, d, i)) !in w.held
    {
      MapDirectories(s, op, d, i);
    }
    forall g, j | g in w.held && 0 <= j < 0x400
      ensures Entry(s'.mem, g, j) == Entry(s.mem, g, j)
    {
      MapLeaves(s, op, g, j);
    }
  }

  lemma {:induction false} UnmapKeepsHeld(w: World, op: Op)
    requires Inv(w) && op.UnmapOp? && Allowed(w, PageEv(op))
    ensures HeldApart(PageMap.Step(w.space, op), w.held)
    ensures forall g, j | g in w.held && 0 <= j < 0x400 ::
      Entry(PageMap.Step(w.space, op).mem, g, j) == Entry(w.space.mem, g, j)
  {
    var s, e := w.space, Entry(w.space.mem, op.dir, op.page.di);
    if Present(e) {
      forall g, j | (g in w.held || g in s.dirs) && 0 <= j < 0x400
        ensures Entry(PageMap.Step(s, op).mem, g, j) == Entry(s.mem, g, j)
      {
        EntrySet(s.mem, FrameOf(e), op.page.ti, 0, g, j);
      }
    }
  }

  lemma {:induction false} CreateKeepsHeld(w: World)
    requires Inv(w)
    ensures HeldApart(PageMap.Step(w.space, CreateOp), w.held)
    ensures forall g, j | g in w.held && 0 <= j < 0x400 ::
      Entry(PageMap.Step(w.space, CreateOp).mem, g, j) == Entry(w.space.mem, g, j)
  {
    var s, s' := w.space, PageMap.Step(w.space, CreateOp);
    FreshFrame(s.frames);
    if !Pmm.Full(s.frames) {
      CreatedEntries(s, s.kernel, 0);
      forall d, i | d in s'.dirs && 0 <= i < 0x400 && Present(Entry(s'.mem, d, i))
        ensures FrameOf(Entry(s'.mem, d, i)) !in w.held
      {
        CreatedEntries(s, d, i);
      }
      forall g, j | g in w.held && 0 <= j < 0x400
        ensures Entry(s'.mem, g, j) == Entry(s.mem, g, j)
      {
        CreatedEntries(s, g, j);
      }
    }
  }

  /** No page-table operation makes a table of a held frame, or writes a word of one. */
  lemma {:induction false} PageKeepsHeld(w: World, op: Op)
    requires Inv(w) && Allowed(w, PageEv(op))
    ensures HeldApart(PageMap.Step(w.space, op), w.held)
    ensures forall g, j | g in w.held && 0 <= j < 0x400 ::
      Entry(PageMap.Step(w.space, op).mem, g, j) == Entry(w.space.mem, g, j)
  {
    match op
    case CreateOp => CreateKeepsHeld(w);
    case MapOp(_, _, _, _) => MapKeepsHeld(w, op);
    case UnmapOp(_, _) => UnmapKeepsHeld(w, op);
  }

  // ---------------------------------------------------------------- the other clients

  // What a page-table walk reads is where no client writes.
  lemma {:induction false} StoreKeeps(w: World, frame: nat, i: nat, value: u32)
    requires Inv(w) && frame in w.held && i < 0x400
    ensures var w' := Step(w, StoreEv(frame, i, value));
      && Inv(w') && SameTranslations(w.space, w'.space)
      && forall g, j | 0 <= j < 0x400 && (g != frame || j != i) :: Entry(w'.space.mem, g, j) == Entry(w.space.mem, g, j)
  {
    var s, s' := w.space, Step(w, StoreEv(frame, i, value)).space;
    forall g, j | 0 <= j < 0x400 && (g != frame || j != i)
      ensures Entry(s'.mem, g, j) == Entry(s.mem, g, j)
    {
      EntrySet(s.mem, frame, i, value, g, j);
    }
    assert TablesApart(s');
  }

  lemma {:induction false} TakeKeeps(w: World)
    requires Inv(w)
    ensures Inv(Step(w, TakeEv)) && w.held <= Step(w, TakeEv).held
  {
    FreshFrame(w.space.frames);
    assert TablesApart(Step(w, TakeEv).space);
  }

  lemma {:induction false} GiveKeeps(w: World, page: nat)
    requires Inv(w) && page in w.held
    ensures Inv(Step(w, GiveEv(page)))
  {
    assert TablesApart(Step(w, GiveEv(page)).space);
  }

  // ---------------------------------------------------------------- runs

  /** The event names the page of the directory. */
  predicate NamesPage(ev: Event, d: nat, v: Page) {
    ev.PageEv? && Names(ev.op, d, v)
  }

  /** The event gives the frame back, or writes this word of it. */
  predicate NamesWord(ev: Event, g: nat, j: nat) {
    (ev.GiveEv? && ev.given == g) || (ev.StoreEv? && ev.frame == g && ev.i == j)
  }

  lemma {:induction false} StepKeepsInv(w: World, ev: Event)
    requires Inv(w) && Allowed(w, ev)
    ensures var w' := Step(w, ev); Inv(w') && w.space.dirs <= w'.space.dirs && w'.space.kernel == w.space.kernel
  {
    match ev
    case PageEv(op) =>
      PageMap.StepKeepsInv(w.space, op);
      PageKeepsHeld(w, op);
    case TakeEv => TakeKeeps(w);
    case StoreEv(frame, i, value) => StoreKeeps(w, frame, i, value);
    case GiveEv(page) => GiveKeeps(w, page);
  }

  lemma {:induction false} StepIsolates(w: World, ev: Event, d: nat, v: Page)
    requires Inv(w) && Allowed(w, ev) && d in w.space.dirs && v.di != 0 && !NamesPage(ev, d, v)
    ensures GetPhys(Step(w, ev).space.mem, d, v) == GetPhys(w.space.mem, d, v)
  {
    match ev
    case PageEv(op) => PageMap.StepIsolates(w.space, op, d, v);
    case TakeEv =>
    case StoreEv(frame, i, value) => StoreKeeps(w, frame, i, value);
    case GiveEv(_) =>
  }

  lemma {:induction false} StepKeepsWord(w: World, ev: Event, g: nat, j: nat)
    requires Inv(w) && Allowed(w, ev) && g in w.held && j < 0x400 && !NamesWord(ev, g, j)
    ensures g in Step(w, ev).held && Entry(Step(w, ev).space.mem, g, j) == Entry(w.space.mem, g, j)
  {
    match ev
    case PageEv(op) => PageKeepsHeld(w, op);
    case TakeEv =>
    case StoreEv(frame, i, value) => StoreKeeps(w, frame, i, value);
    case GiveEv(_) =>
  }

  /** Isolation with other clients of the allocator in between: a page at or above 4 MiB keeps its
      translation in a directory through every run that never names that page of that directory,
      whatever frames the others take, fill with any words at all, and give back. */
  lemma {:induction false} RunIsolates(w: World, evs: seq<Event>, d: nat, v: Page)
    requires Inv(w) && AllAllowed(w, evs) && d in w.space.dirs && v.di != 0
    requires forall ev | ev in evs :: !NamesPage(ev, d, v)
    ensures Inv(Run(w, evs)) && w.space.dirs <= Run(w, evs).space.dirs
    ensures GetPhys(Run(w, evs).space.mem, d, v) == GetPhys(w.space.mem, d, v)
    decreases |evs|
  {
    if evs != [] {
      StepKeepsInv(w, evs[0]);
      StepIsolates(w, evs[0], d, v);
      RunIsolates(Step(w, evs[0]), evs[1..], d, v);
    }
  }

  /** And the other way about: a word of a held frame changes by its holder's own stores only, through
      every directory and table made and every entry written in between. */
  lemma {:induction false} RunKeepsWord(w: World, evs: seq<Event>, g: nat, j: nat)
    requires Inv(w) && AllAllowed(w, evs) && g in w.held && j < 0x400
    requires forall ev | ev in evs :: !NamesWord(ev, g, j)
    ensures g in Run(w, evs).held && Entry(Run(w, evs).space.mem, g, j) == Entry(w.space.mem, g, j)
    decreases |evs|
  {
    if evs != [] {
      StepKeepsInv(w, evs[0]);
      StepKeepsWord(w, evs[0], g, j);
      RunKeepsWord(Step(w, evs[0]), evs[1..], g, j);
    }
  }
}
