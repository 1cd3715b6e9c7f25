/** The process table of src/kernel/process.c as a value: what each operation does to it, which
    slot the scheduler picks, and what holds over whole runs. */
module ProcessTable {
  import opened Machine

  const MAX_PROCS: nat := 64

  /** The registers the scheduler saves and restores. */
  datatype Regs = Regs(eax: u32, ebx: u32, ecx: u32, edx: u32, esi: u32, edi: u32, ebp: u32, esp: u32,
                       eip: u32, eflags: u32, cs: u32, ss: u32, ds: u32)

  datatype ProcState = Unused | Running | Ready | Sleeping | Zombie

  datatype Proc = Proc(pid: int, ppid: int, state: ProcState, priority: u32, ticksLeft: u32, pageDir: nat,
                       userStack: u32, brk: u32, regs: Regs, totalTicks: nat)

  const NO_REGS: Regs := Regs(0, 0, 0, 0, 0, 0, 0, 0, 0, 0, 0, 0, 0)
  const NO_PROC: Proc := Proc(0, 0, Unused, 0, 0, 0, 0, 0, NO_REGS, 0)
  const USER_STACK: u32 := 0xBFFFE000

  datatype Table = Table(procs: seq<Proc>, nextPid: int, current: nat, count: int)

  type Slot = i: nat | i < 64

  predicate Runnable(s: ProcState) {
    s == Running || s == Ready
  }

  // ---------------------------------------------------------------- searches

  function FirstUnused(procs: seq<Proc>, from: nat := 0): (i: nat)
    requires from <= |procs|
    ensures from <= i <= |procs|
    ensures i < |procs| ==> procs[i].state == Unused
    ensures forall j :: from <= j < i ==> procs[j].state != Unused
    decreases |procs| - from
  {
    if from == |procs| || procs[from].state == Unused then from else FirstUnused(procs, from + 1)
  }

  /** The first slot with this pid, whatever its state. */
  function FindPid(procs: seq<Proc>, pid: int, from: nat := 0): (i: nat)
    requires from <= |procs|
    ensures from <= i <= |procs|
    ensures i < |procs| ==> procs[i].pid == pid
    ensures forall j :: from <= j < i ==> procs[j].pid != pid
    decreases |procs| - from
  {
    if from == |procs| || procs[from].pid == pid then from else FindPid(procs, pid, from + 1)
  }

  /** The first slot in use with this pid. */
  function FindLive(procs: seq<Proc>, pid: int, from: nat := 0): (i: nat)
    requires from <= |procs|
    ensures from <= i <= |procs|
    ensures i < |procs| ==> procs[i].pid == pid && procs[i].state != Unused
    ensures forall j :: from <= j < i ==> !(procs[j].pid == pid && procs[j].state != Unused)
    decreases |procs| - from
  {
    if from == |procs| || (procs[from].pid == pid && procs[from].state != Unused) then from
    else FindLive(procs, pid, from + 1)
  }

  // ---------------------------------------------------------------- operations

  function InitialRegs(entry: u32): Regs {
    NO_REGS.(eip := entry, esp := USER_STACK, ebp := USER_STACK, cs := 0x1B, ds := 0x23, ss := 0x23, eflags := 0x202)
  }

  function NewProc(pid: int, ppid: int, entry: u32, priority: u32, dir: nat): Proc {
    var p := if priority != 0 then priority else 10;
    Proc(pid, ppid, Running, p, p, dir, USER_STACK, 0x01000000, InitialRegs(entry), 0)
  }

  /** process_create; `dir` is what vmm_create_dir returned. */
  function Create(t: Table, entry: u32, priority: u32, dir: nat): (Table, int)
    requires t.current < |t.procs|
  {
    var i := FirstUnused(t.procs);
    if t.count >= MAX_PROCS || i == |t.procs| then (t, -1) else
    var ppid := if i == t.current then t.nextPid else t.procs[t.current].pid;
    (t.(procs := t.procs[i := NewProc(t.nextPid, ppid, entry, priority, dir)],
        nextPid := t.nextPid + 1, count := t.count + 1), t.nextPid)
  }

  function Exit(t: Table, pid: int): Table {
    var i := FindLive(t.procs, pid);
    if i == |t.procs| then t
    else t.(procs := t.procs[i := t.procs[i].(state := Unused, pid := 0)], count := t.count - 1)
  }

  /** process_fork; the child's first directory is abandoned for a second one. */
  function Fork(t: Table, parentPid: int, dir: nat, dir2: nat): (Table, int)
    requires t.current < |t.procs|
  {
    var parent := FindPid(t.procs, parentPid);
    if parent == |t.procs| then (t, -1) else
    var (t', pid) := Create(t, 0, t.procs[parent].priority, dir);
    if pid < 0 then (t', -1) else
    var child := FindPid(t'.procs, pid);
    if child == |t'.procs| then (t', -1) else
    var p := t'.procs[child].(ppid := parentPid, regs := t'.procs[parent].regs.(eax := 0), pageDir := dir2,
                              brk := t'.procs[parent].brk);
    (t'.(procs := t'.procs[child := p]), pid)
  }

  /** process_exec looks at the pid alone: the slot need not be in use. */
  function Exec(t: Table, pid: int, entry: u32): (Table, int) {
    var i := FindPid(t.procs, pid);
    if i == |t.procs| then (t, -1) else
    var stack := t.procs[i].userStack;
    var regs := NO_REGS.(eip := entry, esp := stack, ebp := stack, cs := 0x1B, ds := 0x23, eflags := 0x202);
    (t.(procs := t.procs[i := t.procs[i].(regs := regs, state := Running)]), 0)
  }

  const SIGKILL: int := 9
  const SIGCONT: int := 18
  const SIGSTOP: int := 19

  /** signal_send as far as it reaches the process table: pids below 64 only. */
  function Send(t: Table, pid: int, signum: int): Table {
    if pid < 0 || pid >= MAX_PROCS || signum < 1 || signum > 31 then t
    else if signum == SIGKILL then Exit(t, pid)
    else if signum == SIGSTOP then SetState(t, pid, Sleeping)
    else if signum == SIGCONT then SetState(t, pid, Running)
    else t
  }

  function SetState(t: Table, pid: int, state: ProcState): Table {
    var i := FindLive(t.procs, pid);
    if i == |t.procs| then t else t.(procs := t.procs[i := t.procs[i].(state := state)])
  }

  function Succ(i: Slot): Slot {
    if i == 63 then 0 else i + 1
  }

  /** The scheduler's search: at most n slots after i; the last one looked at when none is runnable. */
  function Scan(procs: seq<Proc>, i: Slot, n: nat): Slot
    requires |procs| == 64
    decreases n
  {
    if n == 0 then i
    else if Runnable(procs[Succ(i)].state) then Succ(i)
    else Scan(procs, Succ(i), n - 1)
  }

  /** process_scheduler: the new table and the registers to resume with. */
  function Tick(t: Table, r: Regs): (Table, Regs)
    requires |t.procs| == 64 && t.current < 64
  {
    if t.count == 0 then (t, r) else
    var p := t.procs[t.current];
    var procs := t.procs[t.current := p.(regs := r, totalTicks := p.totalTicks + 1)];
    var next := Scan(procs, t.current, |procs|);
    (t.(procs := procs, current := next), procs[next].regs)
  }

  /** process_init: the current index is not reset. */
  function Init(current: Slot, dir: nat): Table {
    Create(Table(seq(64, _ => NO_PROC), 1, current, 0), 0, 1, dir).0
  }

  // ---------------------------------------------------------------- slot accounting

  function InUse(procs: seq<Proc>): nat {
    if procs == [] then 0
    else InUse(procs[..|procs| - 1]) + (if procs[|procs| - 1].state == Unused then 0 else 1)
  }

  lemma {:induction false} InUseUpdate(procs: seq<Proc>, i: nat, p: Proc)
    requires i < |procs|
    ensures InUse(procs[i := p]) == InUse(procs)
      - (if procs[i].state == Unused then 0 else 1) + (if p.state == Unused then 0 else 1)
  {
    var n := |procs| - 1;
    if i == n {
      assert procs[i := p][..n] == procs[..n];
    } else {
      InUseUpdate(procs[..n], i, p);
      assert procs[i := p][..n] == procs[..n][i := p];
    }
  }

  lemma {:induction false} InUseBounds(procs: seq<Proc>)
    ensures InUse(procs) <= |procs|
    ensures InUse(procs) == 0 <==> forall i :: 0 <= i < |procs| ==> procs[i].state == Unused
    ensures InUse(procs) == |procs| <==> forall i :: 0 <= i < |procs| ==> procs[i].state != Unused
  {
    if procs != [] {
      InUseBounds(procs[..|procs| - 1]);
      var init := procs[..|procs| - 1];
      assert forall i :: 0 <= i < |init| ==> init[i] == procs[i];
    }
  }

  /** Every slot in use has its own pid, drawn earlier; free slots have pid 0; the count is exact. */
  ghost predicate Inv(t: Table) {
    && |t.procs| == 64 && t.current < 64 && 1 <= t.nextPid
    && t.count == InUse(t.procs)
    && (forall i :: 0 <= i < 64 ==> Fits(t.procs[i], t.nextPid))
    && (forall i, j :: 0 <= i < 64 && 0 <= j < 64 && i != j && t.procs[i].state != Unused ==>
          t.procs[i].pid != t.procs[j].pid)
  }

  predicate Fits(p: Proc, nextPid: int) {
    if p.state == Unused then p.pid == 0 else 1 <= p.pid < nextPid
  }

  lemma {:induction false} InitInv(current: Slot, dir: nat)
    ensures Inv(Init(current, dir))
  {
    var t := Table(seq(64, _ => NO_PROC), 1, current, 0);
    InUseBounds(t.procs);
    CreateKeepsInv(t, 0, 1, dir);
  }

  lemma {:induction false} CreateKeepsInv(t: Table, entry: u32, priority: u32, dir: nat)
    requires Inv(t)
    ensures var (t', pid) := Create(t, entry, priority, dir); Inv(t') && t'.current == t.current
    ensures Create(t, entry, priority, dir).1 == -1 <==> t.count == 64
  {
    InUseBounds(t.procs);
    var i := FirstUnused(t.procs);
    if i < 64 {
      InUseUpdate(t.procs, i, Create(t, entry, priority, dir).0.procs[i]);
    }
  }

  lemma {:induction false} ExitKeepsInv(t: Table, pid: int)
    requires Inv(t)
    ensures Inv(Exit(t, pid)) && Exit(t, pid).current == t.current
  {
    var i := FindLive(t.procs, pid);
    if i < 64 {
      InUseUpdate(t.procs, i, Exit(t, pid).procs[i]);
    }
  }

  lemma {:induction false} ForkKeepsInv(t: Table, parentPid: int, dir: nat, dir2: nat)
    requires Inv(t)
    ensures var t' := Fork(t, parentPid, dir, dir2).0; Inv(t') && t'.current == t.current
  {
    var parent := FindPid(t.procs, parentPid);
    if parent < 64 {
      CreateKeepsInv(t, 0, t.procs[parent].priority, dir);
      var (t', pid) := Create(t, 0, t.procs[parent].priority, dir);
      if 0 <= pid {
        var child := FindPid(t'.procs, pid);
        if child < 64 {
          InUseUpdate(t'.procs, child, Fork(t, parentPid, dir, dir2).0.procs[child]);
        }
      }
    }
  }

  /** exec keeps the accounting exactly when it cannot match the pid 0 of a free slot. */
  lemma {:induction false} ExecKeepsInv(t: Table, pid: int, entry: u32)
    requires Inv(t)
    ensures Exec(t, pid, entry).0.current == t.current
    ensures Inv(Exec(t, pid, entry).0) <==> pid != 0 || t.count == 64
  {
    InUseBounds(t.procs);
    var i := FindPid(t.procs, pid);
    if i < 64 {
      InUseUpdate(t.procs, i, Exec(t, pid, entry).0.procs[i]);
    }
  }

  lemma {:induction false} SetStateKeepsInv(t: Table, pid: int, state: ProcState)
    requires Inv(t) && state != Unused
    ensures Inv(SetState(t, pid, state)) && SetState(t, pid, state).current == t.current
  {
    var i := FindLive(t.procs, pid);
    if i < 64 {
      InUseUpdate(t.procs, i, SetState(t, pid, state).procs[i]);
    }
  }

  lemma {:induction false} TickKeepsInv(t: Table, r: Regs)
    requires Inv(t)
    ensures Inv(Tick(t, r).0)
  {
    if t.count != 0 {
      InUseUpdate(t.procs, t.current, Tick(t, r).0.procs[t.current]);
    }
  }

  // ---------------------------------------------------------------- what the operations do

  /** Nothing but slot i differs. */
  predicate OnlySlot(t: Table, t': Table, i: nat) {
    |t'.procs| == |t.procs| && forall j :: 0 <= j < |t.procs| && j != i ==> t'.procs[j] == t.procs[j]
  }

  /** A new process takes the lowest free slot with a pid no slot has had, and disturbs no other slot;
      its parent is the current process, or itself when it was put in the current slot. */
  lemma {:induction false} CreateCorrect(t: Table, entry: u32, priority: u32, dir: nat)
    requires Inv(t) && t.count < 64
    ensures var (t', pid) := Create(t, entry, priority, dir); var i := FirstUnused(t.procs);
      && i < 64 && OnlySlot(t, t', i) && pid == t.nextPid < t'.nextPid && t'.count == t.count + 1
      && (forall j :: 0 <= j < 64 ==> t.procs[j].pid != pid) && FindLive(t'.procs, pid) == i
      && t'.procs[i].state == Running && t'.procs[i].regs == InitialRegs(entry) && t'.procs[i].pageDir == dir
      && t'.procs[i].ppid == (if i == t.current then pid else t.procs[t.current].pid)
      && 0 < t'.procs[i].priority == t'.procs[i].ticksLeft && (0 < priority ==> t'.procs[i].priority == priority)
  {
    InUseBounds(t.procs);
    var i := FirstUnused(t.procs);
    var (t', pid) := Create(t, entry, priority, dir);
    assert forall j :: 0 <= j < 64 ==> Fits(t.procs[j], t.nextPid);
    assert t'.procs[i].pid == pid && t'.procs[i].state != Unused;
  }

  /** Exit frees the one slot in use with the pid; afterwards no process has it. */
  lemma {:induction false} ExitCorrect(t: Table, pid: int)
    requires Inv(t)
    ensures FindLive(Exit(t, pid).procs, pid) == 64
    ensures FindLive(t.procs, pid) == 64 ==> Exit(t, pid) == t
    ensures FindLive(t.procs, pid) < 64 ==>
      var t', i := Exit(t, pid), FindLive(t.procs, pid);
      OnlySlot(t, t', i) && t'.count == t.count - 1 && t'.procs[i].state == Unused
  {
    var i := FindLive(t.procs, pid);
    if i < 64 {
      assert forall k :: 0 <= k < 64 && k != i ==> t.procs[k].pid != pid || t.procs[k].state == Unused;
    }
  }

  /** A fork succeeds exactly when some slot has the parent's pid and one is free. The child resumes
      where the parent was last saved, but for eax, in the lowest free slot; no other slot, the
      parent's included, changes. A pid of 0 matches the very slot the child is put in, and the child
      starts at address 0. */
  lemma {:induction false} ForkCorrect(t: Table, parentPid: int, dir: nat, dir2: nat)
    requires Inv(t)
    ensures Fork(t, parentPid, dir, dir2).1 == -1 <==> FindPid(t.procs, parentPid) == 64 || t.count == 64
    ensures FindPid(t.procs, parentPid) < 64 && t.count < 64 ==>
      IsFork(t, Fork(t, parentPid, dir, dir2), parentPid, dir2)
  {
    InUseBounds(t.procs);
    var parent := FindPid(t.procs, parentPid);
    if parent < 64 && t.count < 64 {
      CreateCorrect(t, 0, t.procs[parent].priority, dir);
      var (t', pid) := Create(t, 0, t.procs[parent].priority, dir);
      var i := FirstUnused(t.procs);
      assert FindPid(t'.procs, pid) == i;
      if parent == i {
        assert t.procs[i].state == Unused;
        assert Fits(t.procs[i], t.nextPid);
      }
    }
  }

  /** The outcome of a fork: slot i is the child of the process in the first slot with parentPid. */
  ghost predicate IsFork(t: Table, r: (Table, int), parentPid: int, dir: nat)
    requires |t.procs| == 64
  {
    var i, parent := FirstUnused(t.procs), FindPid(t.procs, parentPid);
    && i < 64 && parent < 64 && OnlySlot(t, r.0, i) && r.1 == t.nextPid == r.0.procs[i].pid
    && r.0.procs[i].state == Running && r.0.procs[i].ppid == parentPid && r.0.procs[i].pageDir == dir
    && (parent == i <==> parentPid == 0)
    && r.0.procs[i].regs == (if parentPid == 0 then InitialRegs(0) else t.procs[parent].regs.(eax := 0))
    && (parentPid != 0 ==> r.0.procs[i].brk == t.procs[parent].brk)
  }

  /** Stop takes a process out of the scheduler's reach, continue puts it back, kill ends it; every
      other signal, and every pid from 64 on, leaves the table alone. */
  lemma {:induction false} SendCorrect(t: Table, pid: int, signum: int)
    requires Inv(t)
    ensures Send(t, pid, signum) != t ==> 0 <= pid < 64 && FindLive(t.procs, pid) < 64
    ensures 0 <= pid < 64 && FindLive(t.procs, pid) < 64 ==>
      var i := FindLive(t.procs, pid);
      && OnlySlot(t, Send(t, pid, SIGSTOP), i) && !Runnable(Send(t, pid, SIGSTOP).procs[i].state)
      && Send(t, pid, SIGSTOP).procs[i].regs == t.procs[i].regs && FindLive(Send(t, pid, SIGSTOP).procs, pid) == i
      && OnlySlot(t, Send(t, pid, SIGCONT), i) && Runnable(Send(t, pid, SIGCONT).procs[i].state)
      && Send(t, pid, SIGKILL) == Exit(t, pid) != t
    ensures signum != SIGKILL && signum != SIGSTOP && signum != SIGCONT ==> Send(t, pid, signum) == t
  {
    var i := FindLive(t.procs, pid);
    if i < 64 && 0 <= pid < 64 {
      var t' := Send(t, pid, SIGSTOP);
      assert t'.procs[i].pid == pid && t'.procs[i].state == Sleeping;
      assert forall j :: 0 <= j < i ==> t'.procs[j] == t.procs[j];
    }
  }
}
