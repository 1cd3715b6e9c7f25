/** Whole runs of the scheduler of src/kernel/process.c: ticks interleaved, in any order, with
    process creation, fork, exec, exit and signals. */
module Schedule {
  import opened Machine
  import opened ProcessTable

  datatype Event =
    | TickEv(r: Regs)
    | CreateEv(entry: u32, priority: u32, dir: nat)
    | ForkEv(parentPid: int, dir: nat, dir2: nat)
    | ExitEv(pid: int)
    | ExecEv(execPid: int, entry: u32)
    | SendEv(to: int, signum: int)

  /** 64 slots, one of them current: every run starts and stays there. */
  predicate Shaped(t: Table) {
    |t.procs| == 64 && t.current < 64
  }

  function Step(t: Table, ev: Event): (t': Table)
    requires Shaped(t)
    ensures Shaped(t') && (!ev.TickEv? ==> t'.current == t.current)
  {
    match ev
    case TickEv(r) => Tick(t, r).0
    case CreateEv(entry, priority, dir) => Create(t, entry, priority, dir).0
    case ForkEv(parentPid, dir, dir2) => Fork(t, parentPid, dir, dir2).0
    case ExitEv(pid) => Exit(t, pid)
    case ExecEv(pid, entry) => Exec(t, pid, entry).0
    case SendEv(pid, signum) => Send(t, pid, signum)
  }

  function Run(t: Table, evs: seq<Event>): (t': Table)
    requires Shaped(t)
    ensures Shaped(t')
    decreases |evs|
  {
    if evs == [] then t else Run(Step(t, evs[0]), evs[1..])
  }

  /** exec is kept from matching the pid 0 of a free slot: what a caller has to check. */
  predicate Allowed(t: Table, ev: Event) {
    ev.ExecEv? ==> ev.execPid != 0 || t.count == 64
  }

  predicate AllAllowed(t: Table, evs: seq<Event>)
    requires Shaped(t)
    decreases |evs|
  {
    evs == [] || (Allowed(t, evs[0]) && AllAllowed(Step(t, evs[0]), evs[1..]))
  }

  /** A step keeps the accounting exactly when it is allowed. */
  lemma {:induction false} StepKeepsInv(t: Table, ev: Event)
    requires Inv(t)
    ensures Inv(Step(t, ev)) <==> Allowed(t, ev)
  {
    match ev
    case TickEv(r) => TickKeepsInv(t, r);
    case CreateEv(entry, priority, dir) => CreateKeepsInv(t, entry, priority, dir);
    case ForkEv(parentPid, dir, dir2) => ForkKeepsInv(t, parentPid, dir, dir2);
    case ExitEv(pid) => ExitKeepsInv(t, pid);
    case ExecEv(pid, entry) => ExecKeepsInv(t, pid, entry);
    case SendEv(pid, signum) =>
      ExitKeepsInv(t, pid);
      SetStateKeepsInv(t, pid, Sleeping);
      SetStateKeepsInv(t, pid, Running);
  }

  lemma {:induction false} RunKeepsInv(t: Table, evs: seq<Event>)
    requires Inv(t) && AllAllowed(t, evs)
    ensures Inv(Run(t, evs))
    decreases |evs|
  {
    if evs != [] {
      StepKeepsInv(t, evs[0]);
      RunKeepsInv(Step(t, evs[0]), evs[1..]);
    }
  }

  // ---------------------------------------------------------------- the count, in every run

  /** exec of a pid whose first slot is free: the slot runs, and is not counted. */
  predicate Revives(t: Table, ev: Event) {
    ev.ExecEv? && FindPid(t.procs, ev.execPid) < |t.procs| && t.procs[FindPid(t.procs, ev.execPid)].state == Unused
  }

  function Revivals(t: Table, evs: seq<Event>): nat
    requires Shaped(t)
    decreases |evs|
  {
    if evs == [] then 0 else (if Revives(t, evs[0]) then 1 else 0) + Revivals(Step(t, evs[0]), evs[1..])
  }

  lemma {:induction false} UpdateCounts(t: Table, i: nat, p: Proc)
    requires i < |t.procs|
    ensures InUse(t.procs[i := p]) - InUse(t.procs) ==
      (if p.state == Unused then 0 else 1) - (if t.procs[i].state == Unused then 0 else 1)
  {
    InUseUpdate(t.procs, i, p);
  }

  lemma {:induction false} CreateCounts(t: Table, entry: u32, priority: u32, dir: nat)
    requires Shaped(t)
    ensures var t' := Create(t, entry, priority, dir).0; t'.count - InUse(t'.procs) == t.count - InUse(t.procs)
  {
    var i, t' := FirstUnused(t.procs), Create(t, entry, priority, dir).0;
    if i < 64 {
      UpdateCounts(t, i, t'.procs[i]);
    }
  }

  lemma {:induction false} ExitCounts(t: Table, pid: int)
    requires Shaped(t)
    ensures var t' := Exit(t, pid); t'.count - InUse(t'.procs) == t.count - InUse(t.procs)
  {
    var i := FindLive(t.procs, pid);
    if i < 64 {
      UpdateCounts(t, i, Exit(t, pid).procs[i]);
    }
  }

  lemma {:induction false} SetStateCounts(t: Table, pid: int, state: ProcState)
    requires Shaped(t) && state != Unused
    ensures var t' := SetState(t, pid, state); t'.count == t.count && InUse(t'.procs) == InUse(t.procs)
  {
    var i := FindLive(t.procs, pid);
    if i < 64 {
      UpdateCounts(t, i, SetState(t, pid, state).procs[i]);
    }
  }

  lemma {:induction false} ForkCounts(t: Table, parentPid: int, dir: nat, dir2: nat)
    requires Shaped(t)
    ensures var t' := Fork(t, parentPid, dir, dir2).0; t'.count - InUse(t'.procs) == t.count - InUse(t.procs)
  {
    var parent := FindPid(t.procs, parentPid);
    if parent < 64 {
      CreateCounts(t, 0, t.procs[parent].priority, dir);
      var (t1, pid) := Create(t, 0, t.procs[parent].priority, dir);
      var child := FindPid(t1.procs, pid);
      if 0 <= pid && child < 64 {
        UpdateCounts(t1, child, Fork(t, parentPid, dir, dir2).0.procs[child]);
      }
    }
  }

  // proc_count drifts from the number of slots in use by a revival, and by nothing else.
  lemma {:induction false} StepCounts(t: Table, ev: Event)
    requires Shaped(t)
    ensures var t' := Step(t, ev);
      t'.count - InUse(t'.procs) == t.count - InUse(t.procs) - (if Revives(t, ev) then 1 else 0)
  {
    match ev
    case TickEv(r) => if t.count != 0 { UpdateCounts(t, t.current, Tick(t, r).0.procs[t.current]); }
    case CreateEv(entry, priority, dir) => CreateCounts(t, entry, priority, dir);
    case ForkEv(parentPid, dir, dir2) => ForkCounts(t, parentPid, dir, dir2);
    case ExitEv(pid) => ExitCounts(t, pid);
    case ExecEv(pid, entry) =>
      var i := FindPid(t.procs, pid);
      if i < 64 {
        UpdateCounts(t, i, Exec(t, pid, entry).0.procs[i]);
      }
    case SendEv(pid, signum) =>
      ExitCounts(t, pid);
      SetStateCounts(t, pid, Sleeping);
      SetStateCounts(t, pid, Running);
  }

  /** After any run at all, exec of pid 0 included, proc_count is the number of slots in use less the
      slots that exec revived. */
  lemma {:induction false} CountDrifts(t: Table, evs: seq<Event>)
    requires Shaped(t) && t.count == InUse(t.procs)
    ensures var t' := Run(t, evs); t'.count == InUse(t'.procs) - Revivals(t, evs)
    decreases |evs|
  {
    DriftsFrom(t, evs);
  }

  lemma {:induction false} DriftsFrom(t: Table, evs: seq<Event>)
    requires Shaped(t)
    ensures var t' := Run(t, evs); t'.count - InUse(t'.procs) == t.count - InUse(t.procs) - Revivals(t, evs)
    decreases |evs|
  {
    if evs != [] {
      StepCounts(t, evs[0]);
      DriftsFrom(Step(t, evs[0]), evs[1..]);
    }
  }

  // ---------------------------------------------------------------- the search

  /** How many slots the search looks at from i to reach s: 1 to 64. */
  function Dist(i: Slot, s: Slot): (d: nat)
    ensures 1 <= d <= 64
  {
    if i < s then s - i else s + 64 - i
  }

  /** The search stops at the first runnable slot after the current one. */
  lemma {:induction false} ScanIsFirst(procs: seq<Proc>, i: Slot, n: nat, s: Slot)
    requires |procs| == 64 && Runnable(procs[s].state) && Dist(i, s) <= n
    ensures var k := Scan(procs, i, n);
      && Runnable(procs[k].state) && Dist(i, k) <= Dist(i, s)
      && (forall j: Slot :: Dist(i, j) < Dist(i, k) ==> !Runnable(procs[j].state))
    decreases n
  {
    var next := Succ(i);
    if !Runnable(procs[next].state) {
      ScanIsFirst(procs, next, n - 1, s);
      var k := Scan(procs, next, n - 1);
      forall j: Slot | Dist(i, j) < Dist(i, k)
        ensures !Runnable(procs[j].state)
      {
        if j != next {
          assert Dist(next, j) < Dist(next, k);
        }
      }
    }
  }

  // With nothing runnable it comes round to where it started.
  lemma {:induction false} ScanNone(procs: seq<Proc>, i: Slot, n: nat)
    requires |procs| == 64 && n <= 64
    requires forall j: Slot :: !Runnable(procs[j].state)
    ensures Scan(procs, i, n) == (if i + n < 64 then i + n else i + n - 64)
    decreases n
  {
    if n != 0 {
      ScanNone(procs, Succ(i), n - 1);
    }
  }

  // The slots once the interrupted registers are stored.
  function Saved(t: Table, r: Regs): (procs: seq<Proc>)
    requires t.current < |t.procs|
    ensures |procs| == |t.procs|
    ensures t.count != 0 && |procs| == 64 ==>
      Tick(t, r).0 == t.(procs := procs, current := Scan(procs, t.current, |procs|))
    ensures forall i :: 0 <= i < |procs| ==> procs[i].state == t.procs[i].state
  {
    var p := t.procs[t.current];
    t.procs[t.current := p.(regs := r, totalTicks := p.totalTicks + 1)]
  }

  /** A tick picks a slot on the way to a runnable slot s, or s, exactly when the count is not 0;
      with count 0 it does nothing. */
  lemma {:induction false} TickApproaches(t: Table, r: Regs, s: Slot)
    requires Shaped(t) && Runnable(t.procs[s].state)
    ensures if t.count == 0 then Tick(t, r) == (t, r) else
      var k := Tick(t, r).0.current; Runnable(t.procs[k].state) && (k == s || Dist(k, s) < Dist(t.current, s))
  {
    if t.count != 0 {
      ScanIsFirst(Saved(t, r), t.current, 64, s);
    }
  }

  /** With no slot runnable the interrupted code goes on: its registers are saved in the current
      slot, whoever owns it, and resumed at once. */
  lemma {:induction false} TickWithNoneRunnable(t: Table, r: Regs)
    requires Shaped(t) && t.count != 0 && forall j: Slot :: !Runnable(t.procs[j].state)
    ensures Tick(t, r) == (t.(procs := Saved(t, r)), r)
  {
    ScanNone(Saved(t, r), t.current, 64);
  }

  // ---------------------------------------------------------------- bounded waiting

  /** The slots picked by the ticks of a run that find the count not 0, in order. */
  function Picks(t: Table, evs: seq<Event>): seq<Slot>
    requires Shaped(t)
    decreases |evs|
  {
    if evs == [] then [] else
    var t' := Step(t, evs[0]);
    var rest := Picks(t', evs[1..]);
    if evs[0].TickEv? && t.count != 0 then [t'.current] + rest else rest
  }

  function Ticks(evs: seq<Event>): nat {
    if evs == [] then 0 else (if evs[0].TickEv? then 1 else 0) + Ticks(evs[1..])
  }

  predicate StaysRunnable(t: Table, s: Slot, evs: seq<Event>)
    requires Shaped(t)
    decreases |evs|
  {
    Runnable(t.procs[s].state) && (evs == [] || StaysRunnable(Step(t, evs[0]), s, evs[1..]))
  }

  /** In every run, a slot that stays runnable is picked by one of the next Dist(current, s), at most
      64, ticks that find the count not 0, whatever happens to the other slots in between. */
  lemma {:induction false} BoundedWaiting(t: Table, s: Slot, evs: seq<Event>)
    requires Shaped(t) && StaysRunnable(t, s, evs)
    requires |Picks(t, evs)| >= Dist(t.current, s)
    ensures s in Picks(t, evs)[..Dist(t.current, s)]
    decreases |evs|
  {
    var t' := Step(t, evs[0]);
    var d := Dist(t.current, s);
    if evs[0].TickEv? {
      TickApproaches(t, evs[0].r, s);
    }
    if evs[0].TickEv? && t.count != 0 {
      var picks := Picks(t, evs);
      assert picks[0] == t'.current;
      if t'.current == s {
        assert picks[..d][0] == s;
      } else {
        var d' := Dist(t'.current, s);
        var rest := Picks(t', evs[1..]);
        assert picks == [t'.current] + rest;
        BoundedWaiting(t', s, evs[1..]);
        assert picks[..d] == [t'.current] + rest[..d - 1];
        assert rest[..d'] <= rest[..d - 1];
      }
    } else {
      BoundedWaiting(t', s, evs[1..]);
    }
  }

  predicate TicksOnly(evs: seq<Event>) {
    forall ev | ev in evs :: ev.TickEv?
  }

  /** A runnable slot waits forever exactly when the count is 0: over ticks alone it is picked within
      Dist(current, s) of them if and only if the count is not 0, and with count 0 no number of ticks
      changes anything. */
  lemma {:induction false} PickedIffCounted(t: Table, s: Slot, evs: seq<Event>)
    requires Shaped(t) && Runnable(t.procs[s].state) && TicksOnly(evs) && |evs| >= Dist(t.current, s)
    ensures s in Picks(t, evs) <==> t.count != 0
    ensures t.count == 0 ==> Run(t, evs) == t
  {
    if t.count == 0 {
      TicksStall(t, evs);
    } else {
      TicksPick(t, s, evs);
      BoundedWaiting(t, s, evs);
    }
  }

  lemma {:induction false} TicksStall(t: Table, evs: seq<Event>)
    requires Shaped(t) && t.count == 0 && TicksOnly(evs)
    ensures Run(t, evs) == t && Picks(t, evs) == []
    decreases |evs|
  {
    if evs != [] {
      TicksStall(t, evs[1..]);
    }
  }

  lemma {:induction false} TicksPick(t: Table, s: Slot, evs: seq<Event>)
    requires Shaped(t) && t.count != 0 && Runnable(t.procs[s].state) && TicksOnly(evs)
    ensures |Picks(t, evs)| == |evs| && StaysRunnable(t, s, evs)
    decreases |evs|
  {
    if evs != [] {
      TicksPick(Step(t, evs[0]), s, evs[1..]);
    }
  }

  /** After any run from exact accounting a tick does nothing, whatever is runnable, exactly when as many
      slots are in use as exec revived free ones. */
  lemma {:induction false} StallsIff(t: Table, evs: seq<Event>, r: Regs)
    requires Shaped(t) && t.count == InUse(t.procs)
    ensures var t' := Run(t, evs); Tick(t', r) == (t', r) <==> InUse(t'.procs) == Revivals(t, evs)
  {
    CountDrifts(t, evs);
    TickCounts(Run(t, evs), r);
  }

  // A tick that finds the count not 0 leaves its mark in the current slot.
  lemma {:induction false} TickCounts(t: Table, r: Regs)
    requires Shaped(t)
    ensures Tick(t, r) == (t, r) <==> t.count == 0
  {
    if t.count != 0 {
      assert Tick(t, r).0.procs[t.current].totalTicks == t.procs[t.current].totalTicks + 1;
    }
  }

  /** With exec guarded every tick counts, so a slot that stays runnable is picked within 64 ticks. */
  lemma {:induction false} GuardedWaiting(t: Table, s: Slot, evs: seq<Event>)
    requires Inv(t) && AllAllowed(t, evs) && StaysRunnable(t, s, evs) && Ticks(evs) >= 64
    ensures |Picks(t, evs)| == Ticks(evs) && s in Picks(t, evs)[..64]
  {
    EveryTickPicks(t, s, evs);
    BoundedWaiting(t, s, evs);
    var d := Dist(t.current, s);
    assert Picks(t, evs)[..d] <= Picks(t, evs)[..64];
  }

  lemma {:induction false} EveryTickPicks(t: Table, s: Slot, evs: seq<Event>)
    requires Inv(t) && AllAllowed(t, evs) && StaysRunnable(t, s, evs)
    ensures |Picks(t, evs)| == Ticks(evs)
    decreases |evs|
  {
    if evs != [] {
      assert t.procs[s].state != Unused;
      InUseBounds(t.procs);
      StepKeepsInv(t, evs[0]);
      EveryTickPicks(Step(t, evs[0]), s, evs[1..]);
    }
  }

  /** Up to the first s, every pick is strictly nearer to s than the one before. */
  ghost predicate Approaching(picks: seq<Slot>, from: Slot, s: Slot)
    decreases |picks|
  {
    picks == [] || picks[0] == s ||
    (Dist(picks[0], s) < Dist(from, s) && Approaching(picks[1..], picks[0], s))
  }

  lemma {:induction false} PicksApproach(t: Table, s: Slot, evs: seq<Event>)
    requires Shaped(t) && StaysRunnable(t, s, evs)
    ensures Approaching(Picks(t, evs), t.current, s)
    decreases |evs|
  {
    if evs != [] {
      var t' := Step(t, evs[0]);
      PicksApproach(t', s, evs[1..]);
      if evs[0].TickEv? {
        TickApproaches(t, evs[0].r, s);
        assert t.count != 0 ==> Picks(t, evs)[1..] == Picks(t', evs[1..]);
      }
    }
  }

  lemma {:induction false} ApproachingFalls(picks: seq<Slot>, from: Slot, s: Slot, j: nat)
    requires Approaching(picks, from, s) && j < |picks| && s !in picks[..j + 1]
    ensures Dist(picks[j], s) < Dist(from, s)
    decreases |picks|
  {
    assert picks[0] in picks[..j + 1];
    if 0 < j {
      assert forall k :: 0 <= k < j ==> picks[1..][..j][k] == picks[..j + 1][k + 1];
      ApproachingFalls(picks[1..], picks[0], s, j - 1);
    }
  }

  lemma {:induction false} ApproachingDistinct(picks: seq<Slot>, from: Slot, s: Slot, i: nat, j: nat)
    requires Approaching(picks, from, s) && i < j < |picks| && s !in picks[..j + 1]
    ensures Dist(picks[j], s) < Dist(picks[i], s)
    decreases |picks|
  {
    assert picks[0] in picks[..j + 1];
    assert forall k :: 0 <= k < j ==> picks[1..][..j][k] == picks[..j + 1][k + 1];
    if i == 0 {
      ApproachingFalls(picks[1..], picks[0], s, j - 1);
    } else {
      ApproachingDistinct(picks[1..], picks[0], s, i - 1, j - 1);
    }
  }

  /** In every run, until a slot that stays runnable is picked no other slot is picked twice. */
  lemma {:induction false} NoneTwiceBefore(t: Table, s: Slot, evs: seq<Event>, i: nat, j: nat)
    requires Shaped(t) && StaysRunnable(t, s, evs)
    requires i < j < |Picks(t, evs)| && s !in Picks(t, evs)[..j + 1]
    ensures Picks(t, evs)[i] != Picks(t, evs)[j]
  {
    PicksApproach(t, s, evs);
    ApproachingDistinct(Picks(t, evs), t.current, s, i, j);
  }

  /** The shortest such run: from boot, exec of pid 0 starts free slot 1 uncounted, and the exit of
      pid 1 brings the count to 0. */
  lemma {:induction false} ExecZeroStarves(dir: nat, entry: u32, r: Regs)
    ensures var t := Exit(Exec(Init(0, dir), 0, entry).0, 1);
      |t.procs| == 64 && t.current == 0 && Runnable(t.procs[1].state) && Tick(t, r) == (t, r)
  {
    var t0 := Init(0, dir);
    var idle := NewProc(1, 1, 0, 1, dir);
    assert FirstUnused(seq(64, _ => NO_PROC)) == 0;
    assert t0.procs[0] == idle && t0.procs[1] == NO_PROC && t0.count == 1;
    assert FindPid(t0.procs, 0) == FindPid(t0.procs, 0, 1) == 1;
    var t1 := Exec(t0, 0, entry).0;
    assert t1.procs[1].state == Running && t1.procs[0] == idle;
    assert FindLive(t1.procs, 1) == 0;
  }

  // ---------------------------------------------------------------- contexts

  /** Pids come from the counter. */
  predicate Numbered(t: Table) {
    Shaped(t) && 1 <= t.nextPid && forall i :: 0 <= i < 64 ==> t.procs[i].pid < t.nextPid
  }

  lemma {:induction false} StepKeepsNumbered(t: Table, ev: Event)
    requires Numbered(t)
    ensures Numbered(Step(t, ev))
  {
  }

  /** In every state reached from boot. */
  lemma {:induction false} BootNumbered(current: Slot, dir: nat, evs: seq<Event>)
    ensures Numbered(Run(Init(current, dir), evs))
  {
    InitInv(current, dir);
    RunKeepsNumbered(Init(current, dir), evs);
  }

  lemma {:induction false} RunKeepsNumbered(t: Table, evs: seq<Event>)
    requires Numbered(t)
    ensures Numbered(Run(t, evs))
    decreases |evs|
  {
    if evs != [] {
      StepKeepsNumbered(t, evs[0]);
      RunKeepsNumbered(Step(t, evs[0]), evs[1..]);
    }
  }

  /** Through the run slot s keeps its process (in use, same pid), is never picked, and is not
      the target of exec. */
  predicate Undisturbed(t: Table, s: Slot, evs: seq<Event>)
    requires Shaped(t)
    decreases |evs|
  {
    evs == [] ||
    (var t' := Step(t, evs[0]);
     && t'.current != s
     && t'.procs[s].state != Unused && t'.procs[s].pid == t.procs[s].pid
     && (evs[0].ExecEv? ==> evs[0].execPid != t.procs[s].pid)
     && Undisturbed(t', s, evs[1..]))
  }

  lemma {:induction false} StepKeepsRegs(t: Table, s: Slot, ev: Event)
    requires Numbered(t) && t.current != s && t.procs[s].state != Unused
    requires ev.ExecEv? ==> ev.execPid != t.procs[s].pid
    ensures Step(t, ev).procs[s].regs == t.procs[s].regs
  {
    if ev.ForkEv? {
      var parent := FindPid(t.procs, ev.parentPid);
      if parent < 64 {
        ForkChild(t, parent, ev.dir);
      }
    }
  }

  // The child of a fork is the slot that create filled.
  lemma {:induction false} ForkChild(t: Table, parent: nat, dir: nat)
    requires Numbered(t) && parent < 64
    ensures var (t', pid) := Create(t, 0, t.procs[parent].priority, dir);
      0 <= pid ==> FindPid(t'.procs, pid) == FirstUnused(t.procs) < 64
  {
    var (t', pid) := Create(t, 0, t.procs[parent].priority, dir);
    if 0 <= pid {
      assert t'.procs[FirstUnused(t.procs)].pid == pid;
    }
  }

  lemma {:induction false} RunKeepsRegs(t: Table, s: Slot, evs: seq<Event>)
    requires Numbered(t) && Undisturbed(t, s, evs)
    requires t.current != s && t.procs[s].state != Unused
    ensures var t' := Run(t, evs); t'.procs[s].regs == t.procs[s].regs && t'.current != s
    decreases |evs|
  {
    if evs != [] {
      StepKeepsNumbered(t, evs[0]);
      StepKeepsRegs(t, s, evs[0]);
      RunKeepsRegs(Step(t, evs[0]), s, evs[1..]);
    }
  }

  /** A process preempted with registers r resumes with exactly r, however long other processes
      run, start, stop or exit in between, whether the count is right or not. */
  lemma {:induction false} ContextRestored(t: Table, r: Regs, evs: seq<Event>, r': Regs)
    requires Numbered(t) && t.procs[t.current].state != Unused
    requires Tick(t, r).0.current != t.current
    requires Undisturbed(Tick(t, r).0, t.current, evs)
    ensures var t2 := Run(Tick(t, r).0, evs);
      Tick(t2, r').0.current == t.current ==> Tick(t2, r').1 == r
  {
    var t1 := Tick(t, r).0;
    StepKeepsNumbered(t, TickEv(r));
    assert t1.procs[t.current].regs == r;
    RunKeepsRegs(t1, t.current, evs);
  }

  /** A process that is picked again at once, being the only one runnable, loses nothing either. */
  lemma {:induction false} ContextKept(t: Table, r: Regs)
    requires Shaped(t)
    ensures Tick(t, r).0.current == t.current ==> Tick(t, r).1 == r
  {
  }

  /** A new process keeps its initial context through the next tick, whatever the running code's
      registers, exactly when it was not put in the slot the scheduler still calls current, that
      is, the slot of a process that exited while running. */
  lemma {:induction false} NewContextSurvives(t: Table, entry: u32, priority: u32, dir: nat)
    requires Inv(t) && t.count < 64
    ensures var k := FirstUnused(t.procs); var t' := Create(t, entry, priority, dir).0;
      && k < 64 && Inv(t') && t'.procs[k].regs == InitialRegs(entry)
      && ((forall r :: Tick(t', r).0.procs[k].regs == InitialRegs(entry)) <==> k != t.current)
  {
    InUseBounds(t.procs);
    CreateKeepsInv(t, entry, priority, dir);
    var k := FirstUnused(t.procs);
    var t' := Create(t, entry, priority, dir).0;
    InUseBounds(t'.procs);
    if k == t.current {
      var r := InitialRegs(entry).(eax := 1);
      assert Tick(t', r).0.procs[k].regs == r;
    }
  }
}
