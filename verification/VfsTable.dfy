/** The virtual filesystem switch of src/fs/vfs.c as a value: the mount table, the descriptor table
    and the ramdisk behind them. What other filesystems answer is a parameter. */
module VfsTable {
  import opened Machine
  import D = DiskFiles

  /** A mount point, of the ramdisk or of another filesystem. */
  datatype Mount = Mount(path: string, ramdisk: bool)

  /** fd_table's entry; `data` is the filesystem's own descriptor. */
  datatype Descriptor = Descriptor(inUse: bool, name: string, pos: int, data: int)

  datatype System = System(mounts: seq<Mount>, fds: seq<Descriptor>, disk: D.Disk)

  // ---------------------------------------------------------------- routing

  /** strncmp with the mount path's length; an empty mount path never wins. */
  predicate Matches(m: Mount, path: string) {
    m.path != "" && m.path <= path
  }

  /** resolve_mount: the mount a path goes to, -1 when there is none. */
  function Best(mounts: seq<Mount>, path: string): (b: int)
    ensures -1 <= b < |mounts|
    ensures 0 <= b ==> Matches(mounts[b], path)
  {
    if mounts == [] then -1 else
    var n := |mounts| - 1;
    var b := Best(mounts[..n], path);
    if Matches(mounts[n], path) && (b < 0 || |mounts[n].path| > |mounts[b].path|) then n else b
  }

  /** Mount j wins for a path: it matches, no match is longer, and no earlier one as long. */
  predicate Wins(mounts: seq<Mount>, path: string, j: nat) {
    && j < |mounts| && Matches(mounts[j], path)
    && (forall i :: 0 <= i < |mounts| && Matches(mounts[i], path) ==> |mounts[i].path| <= |mounts[j].path|)
    && (forall i :: 0 <= i < j && Matches(mounts[i], path) ==> |mounts[i].path| < |mounts[j].path|)
  }

  /** The longest matching mount path wins, the first of equals; none wins only when none matches. */
  lemma {:induction false} BestWins(mounts: seq<Mount>, path: string)
    ensures 0 <= Best(mounts, path) ==> Wins(mounts, path, Best(mounts, path))
    ensures Best(mounts, path) == -1 <==> forall i :: 0 <= i < |mounts| ==> !Matches(mounts[i], path)
  {
    if mounts != [] {
      var n := |mounts| - 1;
      BestWins(mounts[..n], path);
      assert forall i :: 0 <= i < n ==> mounts[..n][i] == mounts[i];
    }
  }

  lemma WinnerUnique(mounts: seq<Mount>, path: string, j: nat, k: nat)
    requires Wins(mounts, path, j) && Wins(mounts, path, k)
    ensures j == k
  {
  }

  /** The path below the mount point, without one leading slash if more follows it. */
  function Below(path: string, len: nat): string
    requires len <= |path|
  {
    var s := path[len..];
    if |s| >= 2 && s[0] == '/' then s[1..] else s
  }

  /** A descriptor keeps the first 63 characters of its path, and is routed by them from then on. */
  function Kept(path: string): string {
    if |path| <= 63 then path else path[..63]
  }

  lemma PrefixOfKept(m: Mount, path: string)
    ensures Matches(m, Kept(path)) <==> Matches(m, path) && |m.path| <= 63
  {
    if |path| > 63 {
      if m.path <= path && |m.path| <= 63 {
        assert path[..63][..|m.path|] == path[..|m.path|];
      }
    }
  }

  /** Operations on a descriptor reach the mount it was opened on exactly when that mount's path is
      short enough to be kept whole. */
  lemma {:induction false} RoutesBack(mounts: seq<Mount>, path: string)
    requires 0 <= Best(mounts, path)
    ensures Best(mounts, Kept(path)) == Best(mounts, path) <==> |mounts[Best(mounts, path)].path| <= 63
  {
    var b := Best(mounts, path);
    BestWins(mounts, path);
    BestWins(mounts, Kept(path));
    forall i | 0 <= i < |mounts|
      ensures Matches(mounts[i], Kept(path)) <==> Matches(mounts[i], path) && |mounts[i].path| <= 63
    {
      PrefixOfKept(mounts[i], path);
    }
    if |mounts[b].path| <= 63 {
      assert Matches(mounts[b], Kept(path));
      WinnerUnique(mounts, Kept(path), b, Best(mounts, Kept(path)));
    }
  }

  /** A mount's path is a longer match for the name than the mount b. */
  predicate Outdoes(m: Mount, mounts: seq<Mount>, b: int, name: string)
    requires b < |mounts|
  {
    Matches(m, name) && (b < 0 || |m.path| > |mounts[b].path|)
  }

  // Mounts added behind the others change where a name goes exactly when one of them outdoes its mount.
  lemma {:induction false} BestExtended(mounts: seq<Mount>, more: seq<Mount>, name: string)
    ensures var b := Best(mounts, name);
      Best(mounts + more, name) != b <==> exists m :: m in more && Outdoes(m, mounts, b, name)
  {
    var b, all := Best(mounts, name), mounts + more;
    BestWins(mounts, name);
    BestWins(all, name);
    if m :| m in more && Outdoes(m, mounts, b, name) {
      var k :| 0 <= k < |more| && more[k] == m;
      assert all[|mounts| + k] == m;
      assert b >= 0 ==> all[b] == mounts[b];
    } else if b >= 0 {
      forall i | 0 <= i < |all| && Matches(all[i], name)
        ensures |all[i].path| <= |all[b].path|
      {
        assert i >= |mounts| ==> all[i] == more[i - |mounts|] && all[i] in more;
      }
      assert Wins(all, name, b);
      WinnerUnique(all, name, b, Best(all, name));
    } else {
      forall i | 0 <= i < |all|
        ensures !Matches(all[i], name)
      {
        assert i >= |mounts| ==> all[i] == more[i - |mounts|] && all[i] in more;
      }
    }
  }

  // ---------------------------------------------------------------- operations

  function FreeFd(fds: seq<Descriptor>, from: nat := 0): (i: nat)
    requires from <= |fds|
    ensures from <= i <= |fds|
    ensures i < |fds| ==> !fds[i].inUse
    ensures forall j :: from <= j < i ==> fds[j].inUse
    decreases |fds| - from
  {
    if from == |fds| || !fds[from].inUse then from else FreeFd(fds, from + 1)
  }

  predicate Usable(s: System, fd: int) {
    0 <= fd < 64 && fd < |s.fds| && s.fds[fd].inUse
  }

  /** Whether an operation on the descriptor reaches the ramdisk. */
  predicate OnDisk(s: System, fd: int) {
    Usable(s, fd) && 0 <= Best(s.mounts, s.fds[fd].name) && s.mounts[Best(s.mounts, s.fds[fd].name)].ramdisk
  }

  /** vfs_mount; a ninth mount is ignored. */
  function AddMount(s: System, m: Mount): System {
    if |s.mounts| >= 8 then s else s.(mounts := s.mounts + [m])
  }

  /** vfs_open; `other` is what another filesystem's open returned. */
  function Open(s: System, path: string, create: bool, other: int): (System, int)
    requires |s.disk.fds| == |s.disk.positions| == 64
  {
    var b := Best(s.mounts, path);
    var fd: int := FreeFd(s.fds);
    if b < 0 || fd == |s.fds| then (s, -1) else
    var (disk, data) :=
      if s.mounts[b].ramdisk then D.Open(s.disk, Below(path, |s.mounts[b].path|), create) else (s.disk, other);
    if data < 0 then (s.(disk := disk), -1)
    else (s.(disk := disk, fds := s.fds[fd := Descriptor(true, Kept(path), 0, data)]), fd)
  }

  /** vfs_close gives up its own descriptor only. */
  function Close(s: System, fd: int): (System, int) {
    if !Usable(s, fd) then (s, -1) else (s.(fds := s.fds[fd := s.fds[fd].(inUse := false)]), 0)
  }

  function Advanced(s: System, fd: int, k: int): seq<Descriptor>
    requires Usable(s, fd)
  {
    if k > 0 then s.fds[fd := s.fds[fd].(pos := s.fds[fd].pos + k)] else s.fds
  }

  /** vfs_read and vfs_write that do not reach the ramdisk; `other` is the other filesystem's answer. */
  function Elsewhere(s: System, fd: int, other: int): (System, int) {
    if !Usable(s, fd) || Best(s.mounts, s.fds[fd].name) < 0 then (s, -1)
    else (s.(fds := Advanced(s, fd, other)), other)
  }

  /** vfs_read on a ramdisk descriptor. */
  function Read(s: System, fd: int, n: nat): (System, seq<byte>)
    requires D.Inv(s.disk) && OnDisk(s, fd)
  {
    var (disk, bytes) := D.Read(s.disk, s.fds[fd].data, n);
    (s.(disk := disk, fds := Advanced(s, fd, |bytes|)), bytes)
  }

  function Write(s: System, fd: int, data: seq<byte>, got: D.Allocation): (System, int)
    requires D.Inv(s.disk) && OnDisk(s, fd) && D.Writable(s.disk, s.fds[fd].data, data, got)
  {
    var (disk, w) := D.Write(s.disk, s.fds[fd].data, data, got);
    (s.(disk := disk, fds := Advanced(s, fd, w)), w)
  }

  /** vfs_seek leaves the switch's own position alone. */
  function Seek(s: System, fd: int, offset: int32, whence: D.Whence): (System, int)
    requires OnDisk(s, fd)
  {
    var (disk, r) := D.Seek(s.disk, s.fds[fd].data, offset, whence);
    (s.(disk := disk), r)
  }

  // ---------------------------------------------------------------- runs

  datatype Event =
    | MountEv(mount: Mount)
    | OpenEv(path: string, create: bool, other: int)
    | CloseEv(cfd: int)
    | ReadEv(rfd: int, n: nat, other: int)
    | WriteEv(wfd: int, data: seq<byte>, got: D.Allocation, other: int)
    | SeekEv(sfd: int, offset: int32, whence: D.Whence)

  /** A write on the ramdisk ends below 2^31, and gets the buffer it asks for, or none. */
  ghost predicate Permitted(s: System, ev: Event) {
    ev.WriteEv? && OnDisk(s, ev.wfd) ==> D.Writable(s.disk, s.fds[ev.wfd].data, ev.data, ev.got)
  }

  ghost function Step(s: System, ev: Event): System
    requires D.Inv(s.disk) && Permitted(s, ev)
  {
    match ev
    case MountEv(m) => AddMount(s, m)
    case OpenEv(path, create, other) => Open(s, path, create, other).0
    case CloseEv(fd) => Close(s, fd).0
    case ReadEv(fd, n, other) => if OnDisk(s, fd) then Read(s, fd, n).0 else Elsewhere(s, fd, other).0
    case WriteEv(fd, data, got, other) => if OnDisk(s, fd) then Write(s, fd, data, got).0 else Elsewhere(s, fd, other).0
    case SeekEv(fd, offset, whence) => if OnDisk(s, fd) then Seek(s, fd, offset, whence).0 else s
  }

  /** Whether an event is an open that took a ramdisk descriptor. */
  ghost predicate Takes(s: System, ev: Event)
    requires D.Inv(s.disk)
  {
    && ev.OpenEv? && 0 <= Best(s.mounts, ev.path) && s.mounts[Best(s.mounts, ev.path)].ramdisk
    && 0 <= Open(s, ev.path, ev.create, ev.other).1
  }

  /** How many ramdisk descriptors are taken. */
  function Taken(fds: seq<int>): (n: nat)
    ensures n <= |fds|
  {
    if fds == [] then 0 else Taken(fds[..|fds| - 1]) + (if fds[|fds| - 1] == -1 then 0 else 1)
  }

  lemma {:induction false} TakenUpdate(fds: seq<int>, i: nat, x: int)
    requires i < |fds| && fds[i] == -1 && x != -1
    ensures Taken(fds[i := x]) == Taken(fds) + 1
  {
    var n := |fds| - 1;
    if i == n {
      assert fds[i := x][..n] == fds[..n];
    } else {
      TakenUpdate(fds[..n], i, x);
      assert fds[i := x][..n] == fds[..n][i := x];
    }
  }

  lemma {:induction false} AllTaken(fds: seq<int>)
    ensures Taken(fds) == |fds| <==> forall i :: 0 <= i < |fds| ==> fds[i] != -1
  {
    if fds != [] {
      var n := |fds| - 1;
      AllTaken(fds[..n]);
      assert forall i :: 0 <= i < n ==> fds[..n][i] == fds[i];
    }
  }

  lemma {:induction false} DiskOpenTakes(d: D.Disk, path: string, create: bool)
    requires D.Inv(d)
    ensures D.Inv(D.Open(d, path, create).0)
    ensures var (d', fd) := D.Open(d, path, create); Taken(d'.fds) == Taken(d.fds) + (if fd < 0 then 0 else 1)
  {
    D.OpenCorrect(d, path, create);
    var (d', fd) := D.Open(d, path, create);
    if fd != -1 {
      TakenUpdate(d.fds, fd, d'.fds[fd]);
    }
  }

  lemma {:induction false} StepTakes(s: System, ev: Event)
    requires D.Inv(s.disk) && Permitted(s, ev)
    ensures D.Inv(Step(s, ev).disk)
    ensures Taken(Step(s, ev).disk.fds) == Taken(s.disk.fds) + (if Takes(s, ev) then 1 else 0)
  {
    match ev
    case MountEv(m) =>
    case OpenEv(path, create, other) =>
      var b := Best(s.mounts, path);
      if 0 <= b && s.mounts[b].ramdisk && FreeFd(s.fds) < |s.fds| {
        DiskOpenTakes(s.disk, Below(path, |s.mounts[b].path|), create);
      }
    case CloseEv(fd) =>
    case ReadEv(fd, n, other) => if OnDisk(s, fd) { D.ReadCorrect(s.disk, s.fds[fd].data, n); }
    case WriteEv(fd, data, got, other) => if OnDisk(s, fd) { D.WriteCorrect(s.disk, s.fds[fd].data, data, got); }
    case SeekEv(fd, offset, whence) => if OnDisk(s, fd) { D.SeekCorrect(s.disk, s.fds[fd].data, offset, whence); }
  }

  ghost predicate AllPermitted(s: System, evs: seq<Event>)
    requires D.Inv(s.disk)
    decreases |evs|
  {
    evs == [] || (Permitted(s, evs[0]) && (StepTakes(s, evs[0]); AllPermitted(Step(s, evs[0]), evs[1..])))
  }

  ghost function Run(s: System, evs: seq<Event>): System
    requires D.Inv(s.disk) && AllPermitted(s, evs)
    decreases |evs|
  {
    if evs == [] then s else StepTakes(s, evs[0]); Run(Step(s, evs[0]), evs[1..])
  }

  /** The opens of a run that took a ramdisk descriptor. */
  ghost function Opens(s: System, evs: seq<Event>): nat
    requires D.Inv(s.disk) && AllPermitted(s, evs)
    decreases |evs|
  {
    if evs == [] then 0 else
    StepTakes(s, evs[0]);
    (if Takes(s, evs[0]) then 1 else 0) + Opens(Step(s, evs[0]), evs[1..])
  }

  /** Closing through the switch gives no ramdisk descriptor back: over every run, however many
      closes it holds, each successful open costs one for good, and at most 64 ever succeed. */
  lemma {:induction false} OpensLeak(s: System, evs: seq<Event>)
    requires D.Inv(s.disk) && AllPermitted(s, evs)
    ensures D.Inv(Run(s, evs).disk)
    ensures Taken(Run(s, evs).disk.fds) == Taken(s.disk.fds) + Opens(s, evs) <= 64
    decreases |evs|
  {
    if evs != [] {
      StepTakes(s, evs[0]);
      OpensLeak(Step(s, evs[0]), evs[1..]);
    }
  }

  /** With every descriptor taken, no path on the ramdisk opens any more. */
  lemma {:induction false} Exhausted(s: System, path: string, create: bool, other: int)
    requires D.Inv(s.disk) && Taken(s.disk.fds) == 64
    requires 0 <= Best(s.mounts, path) && s.mounts[Best(s.mounts, path)].ramdisk
    ensures Open(s, path, create, other).1 == -1
  {
    AllTaken(s.disk.fds);
  }

  // ---------------------------------------------------------------- mounts over open descriptors

  function MountsOf(evs: seq<Event>): seq<Mount> {
    if evs == [] then []
    else if evs[0].MountEv? then [evs[0].mount] + MountsOf(evs[1..]) else MountsOf(evs[1..])
  }

  /** The mounts of a run that find room. */
  function Added(s: System, evs: seq<Event>): seq<Mount> {
    var ms, room := MountsOf(evs), 8 - |s.mounts|;
    if room <= 0 then [] else if |ms| <= room then ms else ms[..room]
  }

  predicate Closes(ev: Event, fd: int) {
    ev.CloseEv? && ev.cfd == fd
  }

  lemma {:induction false} StepKeepsName(s: System, ev: Event, fd: int)
    requires D.Inv(s.disk) && Permitted(s, ev) && Usable(s, fd) && !Closes(ev, fd)
    ensures Usable(Step(s, ev), fd)
    ensures Step(s, ev).fds[fd].name == s.fds[fd].name && Step(s, ev).fds[fd].data == s.fds[fd].data
    ensures Step(s, ev).mounts == if ev.MountEv? then AddMount(s, ev.mount).mounts else s.mounts
  {
  }

  lemma {:induction false} AddedStep(s: System, ev: Event, rest: seq<Event>, s': System)
    requires s'.mounts == if ev.MountEv? then AddMount(s, ev.mount).mounts else s.mounts
    ensures s'.mounts + Added(s', rest) == s.mounts + Added(s, [ev] + rest)
  {
    assert ([ev] + rest)[1..] == rest;
  }

  /** A descriptor that stays open keeps its name and the filesystem's number through every run, and the
      mounts that find room go behind the others. */
  lemma {:induction false} RunKeepsName(s: System, evs: seq<Event>, fd: int)
    requires D.Inv(s.disk) && AllPermitted(s, evs) && Usable(s, fd) && forall ev | ev in evs :: !Closes(ev, fd)
    ensures var s' := Run(s, evs);
      && Usable(s', fd) && s'.fds[fd].name == s.fds[fd].name && s'.fds[fd].data == s.fds[fd].data
      && s'.mounts == s.mounts + Added(s, evs)
    decreases |evs|
  {
    if evs != [] {
      StepTakes(s, evs[0]);
      StepKeepsName(s, evs[0], fd);
      RunKeepsName(Step(s, evs[0]), evs[1..], fd);
      AddedStep(s, evs[0], evs[1..], Step(s, evs[0]));
      assert evs == [evs[0]] + evs[1..];
    }
  }

  /** A descriptor goes on reaching the mount it reached exactly when no mount that found room in the
      run has a path that is a longer match for its name: the others take the open descriptor over,
      with a number that another filesystem gave. */
  lemma {:induction false} MountTakesOver(s: System, evs: seq<Event>, fd: int)
    requires D.Inv(s.disk) && AllPermitted(s, evs) && Usable(s, fd) && forall ev | ev in evs :: !Closes(ev, fd)
    ensures var s' := Run(s, evs); var name := s.fds[fd].name; var b := Best(s.mounts, name);
      && Usable(s', fd) && s'.fds[fd].data == s.fds[fd].data
      && (Best(s'.mounts, s'.fds[fd].name) == b <==> forall m :: m in Added(s, evs) ==> !Outdoes(m, s.mounts, b, name))
  {
    RunKeepsName(s, evs, fd);
    BestExtended(s.mounts, Added(s, evs), s.fds[fd].name);
  }

  /** One mount moves a descriptor onto the ramdisk or off it exactly when there is room, its path is a
      longer match, and the two mounts are of different kinds. */
  lemma {:induction false} MountMoves(s: System, m: Mount, fd: int)
    requires Usable(s, fd)
    ensures var name := s.fds[fd].name; var b := Best(s.mounts, name);
      OnDisk(AddMount(s, m), fd) != OnDisk(s, fd) <==>
        |s.mounts| < 8 && Outdoes(m, s.mounts, b, name) && m.ramdisk != (0 <= b && s.mounts[b].ramdisk)
  {
    var name := s.fds[fd].name;
    BestExtended(s.mounts, [m], name);
    assert (s.mounts + [m])[..|s.mounts|] == s.mounts;
  }

  // ---------------------------------------------------------------- descriptors apart

  /** All mounts being the ramdisk's, every descriptor in use has its own open ramdisk descriptor. */
  ghost predicate Apart(s: System) {
    && D.Inv(s.disk) && |s.fds| == 64
    && (forall i :: 0 <= i < |s.mounts| ==> s.mounts[i].ramdisk)
    && (forall i :: 0 <= i < 64 && s.fds[i].inUse ==> D.IsOpen(s.disk, s.fds[i].data))
    && (forall i, j :: 0 <= i < j < 64 && s.fds[i].inUse && s.fds[j].inUse ==> s.fds[i].data != s.fds[j].data)
  }

  predicate RamdiskOnly(ev: Event) {
    ev.MountEv? ==> ev.mount.ramdisk
  }

  /** The event names the descriptor. */
  predicate Uses(ev: Event, fd: int) {
    match ev
    case MountEv(_) => false
    case OpenEv(_, _, _) => false
    case CloseEv(f) => f == fd
    case ReadEv(f, _, _) => f == fd
    case WriteEv(f, _, _, _) => f == fd
    case SeekEv(f, _, _) => f == fd
  }

  // An open touches no descriptor in use, and takes a ramdisk descriptor that none of them has.
  lemma {:induction false} OpenApart(s: System, path: string, create: bool, other: int)
    requires Apart(s)
    ensures var s' := Open(s, path, create, other).0;
      && Apart(s') && |s'.disk.files| >= |s.disk.files|
      && (forall i :: 0 <= i < 64 && s.fds[i].inUse ==>
            && s'.fds[i] == s.fds[i] && D.IsOpen(s'.disk, s.fds[i].data)
            && s'.disk.positions[s.fds[i].data] == s.disk.positions[s.fds[i].data]
            && s'.disk.fds[s.fds[i].data] == s.disk.fds[s.fds[i].data])
  {
    var b := Best(s.mounts, path);
    if 0 <= b && FreeFd(s.fds) < |s.fds| {
      D.OpenCorrect(s.disk, Below(path, |s.mounts[b].path|), create);
    }
  }

  lemma {:induction false} StepKeepsApart(s: System, ev: Event)
    requires Apart(s) && Permitted(s, ev) && RamdiskOnly(ev)
    ensures Apart(Step(s, ev))
  {
    StepTakes(s, ev);
    match ev
    case MountEv(m) =>
    case OpenEv(path, create, other) => OpenApart(s, path, create, other);
    case CloseEv(fd) =>
    case _ =>
      MovesOnly(s, ev);
      SameApart(s, Step(s, ev));
  }

  // Reading, writing and seeking open and close nothing.
  lemma {:induction false} MovesOnly(s: System, ev: Event)
    requires D.Inv(s.disk) && Permitted(s, ev) && (ev.ReadEv? || ev.WriteEv? || ev.SeekEv?)
    ensures var s' := Step(s, ev);
      && s'.mounts == s.mounts && s'.disk.fds == s.disk.fds && |s'.fds| == |s.fds|
      && forall i | 0 <= i < |s.fds| :: s'.fds[i].inUse == s.fds[i].inUse && s'.fds[i].data == s.fds[i].data
  {
    match ev
    case ReadEv(fd, n, other) => if OnDisk(s, fd) { D.ReadCorrect(s.disk, s.fds[fd].data, n); }
    case WriteEv(fd, data, got, other) => if OnDisk(s, fd) { D.WriteCorrect(s.disk, s.fds[fd].data, data, got); }
    case SeekEv(fd, offset, whence) => if OnDisk(s, fd) { D.SeekCorrect(s.disk, s.fds[fd].data, offset, whence); }
  }

  lemma SameApart(s: System, s': System)
    requires Apart(s) && D.Inv(s'.disk) && s'.mounts == s.mounts && s'.disk.fds == s.disk.fds && |s'.fds| == 64
    requires forall i | 0 <= i < 64 :: s'.fds[i].inUse == s.fds[i].inUse && s'.fds[i].data == s.fds[i].data
    ensures Apart(s')
  {
    forall i | 0 <= i < 64 && s'.fds[i].inUse
      ensures D.IsOpen(s'.disk, s'.fds[i].data)
    {
      assert D.IsOpen(s.disk, s.fds[i].data);
      assert D.FdFits(s'.disk, s'.fds[i].data);
    }
  }

  lemma {:induction false} StepKeepsPosition(s: System, ev: Event, fd: nat)
    requires Apart(s) && Permitted(s, ev) && RamdiskOnly(ev) && fd < 64 && s.fds[fd].inUse && !Uses(ev, fd)
    ensures Step(s, ev).fds[fd] == s.fds[fd] && D.IsOpen(Step(s, ev).disk, s.fds[fd].data)
    ensures Step(s, ev).disk.positions[s.fds[fd].data] == s.disk.positions[s.fds[fd].data]
    ensures Step(s, ev).disk.fds[s.fds[fd].data] == s.disk.fds[s.fds[fd].data]
  {
    StepKeepsApart(s, ev);
    match ev
    case MountEv(m) =>
    case OpenEv(path, create, other) => OpenApart(s, path, create, other);
    case CloseEv(f) =>
    case ReadEv(f, n, other) => if OnDisk(s, f) { D.ReadCorrect(s.disk, s.fds[f].data, n); }
    case WriteEv(f, data, got, other) => if OnDisk(s, f) { D.WriteCorrect(s.disk, s.fds[f].data, data, got); }
    case SeekEv(f, offset, whence) => if OnDisk(s, f) { D.SeekCorrect(s.disk, s.fds[f].data, offset, whence); }
  }

  /** Over every run with ramdisk mounts only, a descriptor keeps its file and its position through
      everything done to the other descriptors. */
  lemma {:induction false} OwnPosition(s: System, evs: seq<Event>, fd: nat)
    requires Apart(s) && AllPermitted(s, evs) && fd < 64 && s.fds[fd].inUse
    requires forall ev | ev in evs :: RamdiskOnly(ev) && !Uses(ev, fd)
    ensures var s' := Run(s, evs);
      && Apart(s') && s'.fds[fd] == s.fds[fd]
      && s'.disk.positions[s.fds[fd].data] == s.disk.positions[s.fds[fd].data]
      && s'.disk.fds[s.fds[fd].data] == s.disk.fds[s.fds[fd].data]
    decreases |evs|
  {
    if evs != [] {
      StepTakes(s, evs[0]);
      StepKeepsApart(s, evs[0]);
      StepKeepsPosition(s, evs[0], fd);
      OwnPosition(Step(s, evs[0]), evs[1..], fd);
    }
  }

  // ---------------------------------------------------------------- reading back

  /** Whether an event writes to file i of the ramdisk. */
  predicate Writes(s: System, ev: Event, i: nat) {
    && ev.WriteEv? && OnDisk(s, ev.wfd) && D.IsOpen(s.disk, s.fds[ev.wfd].data)
    && s.disk.fds[s.fds[ev.wfd].data] == i
  }

  ghost predicate Spares(s: System, evs: seq<Event>, i: nat)
    requires D.Inv(s.disk) && AllPermitted(s, evs)
    decreases |evs|
  {
    evs == [] || (!Writes(s, evs[0], i) && (StepTakes(s, evs[0]); Spares(Step(s, evs[0]), evs[1..], i)))
  }

  lemma {:induction false} StepKeepsFile(s: System, ev: Event, i: nat)
    requires D.Inv(s.disk) && Permitted(s, ev) && i < |s.disk.files| && !Writes(s, ev, i)
    ensures i < |Step(s, ev).disk.files| && Step(s, ev).disk.files[i] == s.disk.files[i]
  {
    match ev
    case MountEv(m) =>
    case OpenEv(path, create, other) =>
      var b := Best(s.mounts, path);
      if 0 <= b && s.mounts[b].ramdisk && FreeFd(s.fds) < |s.fds| {
        D.OpenCorrect(s.disk, Below(path, |s.mounts[b].path|), create);
      }
    case CloseEv(fd) =>
    case ReadEv(fd, n, other) => if OnDisk(s, fd) { D.ReadCorrect(s.disk, s.fds[fd].data, n); }
    case WriteEv(fd, data, got, other) => if OnDisk(s, fd) { D.WriteCorrect(s.disk, s.fds[fd].data, data, got); }
    case SeekEv(fd, offset, whence) => if OnDisk(s, fd) { D.SeekCorrect(s.disk, s.fds[fd].data, offset, whence); }
  }

  lemma {:induction false} RunKeepsFile(s: System, evs: seq<Event>, i: nat)
    requires D.Inv(s.disk) && AllPermitted(s, evs) && i < |s.disk.files| && Spares(s, evs, i)
    ensures D.Inv(Run(s, evs).disk) && i < |Run(s, evs).disk.files|
    ensures Run(s, evs).disk.files[i] == s.disk.files[i]
    decreases |evs|
  {
    if evs != [] {
      StepTakes(s, evs[0]);
      StepKeepsFile(s, evs[0], i);
      RunKeepsFile(Step(s, evs[0]), evs[1..], i);
    }
  }

  // A descriptor on the ramdisk stays on it while only ramdisk mounts are added.
  lemma {:induction false} StaysOnDisk(s: System, more: seq<Mount>, s': System, fd: int)
    requires OnDisk(s, fd) && Usable(s', fd) && s'.fds[fd].name == s.fds[fd].name && s'.mounts == s.mounts + more
    requires forall m :: m in s'.mounts ==> m.ramdisk
    ensures OnDisk(s', fd)
  {
    BestWins(s'.mounts, s'.fds[fd].name);
    assert s'.mounts[Best(s.mounts, s.fds[fd].name)] == s.mounts[Best(s.mounts, s.fds[fd].name)];
  }

  /** What a descriptor wrote is read back through it after a seek to where it was written, with any
      run in between that leaves the descriptor alone and does not write to the file: other opens,
      closes, reads, seeks, mounts and writes elsewhere. */
  lemma {:induction false} WriteSeekRead(s: System, fd: nat, data: seq<byte>, got: D.Allocation, evs: seq<Event>)
    requires Apart(s) && OnDisk(s, fd) && got.Bytes? && D.Writable(s.disk, s.fds[fd].data, data, got)
    requires var s1 := Write(s, fd, data, got).0;
      D.Inv(s1.disk) && AllPermitted(s1, evs) && Spares(s1, evs, s.disk.fds[s.fds[fd].data])
    requires forall ev | ev in evs :: RamdiskOnly(ev) && !Uses(ev, fd)
    ensures var s2 := Run(Write(s, fd, data, got).0, evs); var pos := s.disk.positions[s.fds[fd].data];
      && pos < 0x8000_0000 && OnDisk(s2, fd) && D.Inv(s2.disk)
      && var (s3, r) := Seek(s2, fd, pos, D.SeekSet);
      r == pos && D.Inv(s3.disk) && OnDisk(s3, fd) && Read(s3, fd, |data|).1 == data
  {
    var s1, own := Write(s, fd, data, got).0, s.fds[fd].data;
    StepKeepsApart(s, WriteEv(fd, data, got, 0));
    D.WrittenIsThere(s.disk, own, data, got);
    assert s1.fds[fd].data == own && s1.fds[fd].name == s.fds[fd].name;
    OwnPosition(s1, evs, fd);
    RunKeepsFile(s1, evs, s.disk.fds[own]);
    RunKeepsName(s1, evs, fd);
    var s2 := Run(s1, evs);
    StaysOnDisk(s1, Added(s1, evs), s2, fd);
    D.ReadsAt(s2.disk, own, s.disk.positions[own], |data|);
  }
}
