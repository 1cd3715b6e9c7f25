/** Process management and the round-robin scheduler (src/kernel/process.c, with signal_send of
    src/sys/signal.c), updating the slot table in place. */
module Process {
  import opened Machine
  import opened ProcessTable
  import Schedule

  class Scheduler {
    const procs: array<Proc>
    var nextPid: int
    var current: Slot
    var procCount: int

    ghost predicate Valid()
      reads this
    {
      procs.Length == 64
    }

    ghost function View(): Table
      reads this, procs
    {
      Table(procs[..], nextPid, current, procCount)
    }

    // The static storage, before process_init.
    constructor ()
      ensures Valid() && fresh(procs) && current == 0
    {
      procs := new Proc[64](_ => NO_PROC);
      nextPid, current, procCount := 1, 0, 0;
    }

    method Init(dir: nat)
      requires Valid()
      modifies this, procs
      ensures Valid() && View() == ProcessTable.Init(old(current), dir) && Inv(View())
    {
      for i := 0 to MAX_PROCS
        invariant current == old(current)
        invariant forall j :: 0 <= j < i ==> procs[j] == NO_PROC
      {
        procs[i] := NO_PROC;
      }
      nextPid := 1;
      procCount := 0;
      assert procs[..] == seq(64, _ => NO_PROC);
      InitInv(current, dir);
      var pid := Create(0, 1, dir);
    }

    method Create(entry: u32, priority: u32, dir: nat) returns (pid: int)
      requires Valid()
      modifies this, procs
      ensures Valid()
      ensures View() == ProcessTable.Create(old(View()), entry, priority, dir).0
      ensures pid == ProcessTable.Create(old(View()), entry, priority, dir).1
    {
      if procCount >= MAX_PROCS {
        return -1;
      }
      var idx := 0;
      while idx < MAX_PROCS && procs[idx].state != Unused
        invariant idx <= 64 && FirstUnused(procs[..]) == FirstUnused(procs[..], idx)
      {
        idx := idx + 1;
      }
      if idx == MAX_PROCS {
        return -1;
      }
      pid := nextPid;
      nextPid := nextPid + 1;
      procs[idx] := NO_PROC.(pid := pid);
      var ppid := procs[current].pid;
      procs[idx] := procs[idx].(ppid := ppid, state := Running, priority := if priority != 0 then priority else 10);
      procs[idx] := procs[idx].(ticksLeft := procs[idx].priority, pageDir := dir);
      procs[idx] := procs[idx].(userStack := 0xBFFFE000, brk := 0x01000000);
      procs[idx] := procs[idx].(regs := NO_REGS.(eip := entry, esp := procs[idx].userStack, ebp := procs[idx].userStack,
                                                 cs := 0x1B, ds := 0x23, ss := 0x23, eflags := 0x202));
      procCount := procCount + 1;
    }

    // The slots in use, searched in order.
    method IndexLive(pid: int) returns (i: nat)
      requires Valid()
      ensures i == FindLive(procs[..], pid)
    {
      i := 0;
      while i < MAX_PROCS && !(procs[i].pid == pid && procs[i].state != Unused)
        invariant i <= 64 && FindLive(procs[..], pid) == FindLive(procs[..], pid, i)
      {
        i := i + 1;
      }
    }

    // All slots, searched in order.
    method IndexPid(pid: int) returns (i: nat)
      requires Valid()
      ensures i == FindPid(procs[..], pid)
    {
      i := 0;
      while i < MAX_PROCS && procs[i].pid != pid
        invariant i <= 64 && FindPid(procs[..], pid) == FindPid(procs[..], pid, i)
      {
        i := i + 1;
      }
    }

    method Exit(pid: int)
      requires Valid()
      modifies this, procs
      ensures Valid() && View() == ProcessTable.Exit(old(View()), pid)
    {
      var i := IndexLive(pid);
      if i < MAX_PROCS {
        procs[i] := procs[i].(state := Unused);
        procs[i] := procs[i].(pid := 0);
        procCount := procCount - 1;
      }
    }

    method Fork(parentPid: int, dir: nat, dir2: nat) returns (pid: int)
      requires Valid()
      modifies this, procs
      ensures Valid()
      ensures View() == ProcessTable.Fork(old(View()), parentPid, dir, dir2).0
      ensures pid == ProcessTable.Fork(old(View()), parentPid, dir, dir2).1
    {
      var parent := IndexPid(parentPid);
      if parent == MAX_PROCS {
        return -1;
      }
      pid := Create(0, procs[parent].priority, dir);
      if pid < 0 {
        return -1;
      }
      var child := IndexPid(pid);
      if child == MAX_PROCS {
        return -1;
      }
      procs[child] := procs[child].(ppid := parentPid);
      procs[child] := procs[child].(regs := procs[parent].regs);
      procs[child] := procs[child].(regs := procs[child].regs.(eax := 0));
      procs[child] := procs[child].(pageDir := dir2, brk := procs[parent].brk);
    }

    method Exec(pid: int, entry: u32) returns (r: int)
      requires Valid()
      modifies this, procs
      ensures Valid()
      ensures View() == ProcessTable.Exec(old(View()), pid, entry).0
      ensures r == ProcessTable.Exec(old(View()), pid, entry).1
    {
      var i := IndexPid(pid);
      if i == MAX_PROCS {
        return -1;
      }
      var stack := procs[i].userStack;
      procs[i] := procs[i].(regs := NO_REGS.(eip := entry, esp := stack, ebp := stack));
      procs[i] := procs[i].(regs := procs[i].regs.(cs := 0x1B, ds := 0x23, eflags := 0x202));
      procs[i] := procs[i].(state := Running);
      return 0;
    }

    /** process_scheduler: saves the interrupted registers, picks a slot, resumes its registers. */
    method Tick(r: Regs) returns (r': Regs)
      requires Valid()
      modifies this, procs
      ensures Valid()
      ensures View() == ProcessTable.Tick(old(View()), r).0 && r' == ProcessTable.Tick(old(View()), r).1
    {
      if procCount == 0 {
        return r;
      }
      procs[current] := procs[current].(regs := r);
      procs[current] := procs[current].(totalTicks := procs[current].totalTicks + 1);
      assert procs[..] == Schedule.Saved(old(View()), r);
      var next := Search();
      current := next;
      return procs[next].regs;
    }

    // The round-robin search for the next runnable slot.
    method Search() returns (next: Slot)
      requires Valid()
      ensures next == Scan(procs[..], current, procs.Length)
    {
      next := current;
      for i := 0 to procs.Length
        invariant Scan(procs[..], current, procs.Length) == Scan(procs[..], next, procs.Length - i)
      {
        next := Next(next);
        if procs[next].state == Running || procs[next].state == Ready {
          return;
        }
      }
    }

    method SetState(pid: int, state: ProcState)
      requires Valid()
      modifies procs
      ensures View() == ProcessTable.SetState(old(View()), pid, state)
    {
      var i := IndexLive(pid);
      if i < MAX_PROCS {
        procs[i] := procs[i].(state := state);
      }
    }

    /** signal_send, apart from the pending bit it records. */
    method Send(pid: int, signum: int)
      requires Valid()
      modifies this, procs
      ensures Valid() && View() == ProcessTable.Send(old(View()), pid, signum)
    {
      if pid < 0 || pid >= MAX_PROCS || signum < 1 || signum > 31 {
        return;
      }
      if signum == SIGKILL {
        Exit(pid);
      } else if signum == SIGSTOP {
        SetState(pid, Sleeping);
      } else if signum == SIGCONT {
        SetState(pid, Running);
      }
    }
  }

  // `(next + 1) % MAX_PROCS`
  method Next(i: Slot) returns (j: Slot)
    ensures j == Succ(i)
  {
    j := (i + 1) % 64;
  }
}
