/** The in-memory filesystem's code (src/fs/ramdisk.c): a static file table, descriptor and
    position arrays, and buffers that are regrown and overwritten. */
module Ramdisk {
  import opened Machine
  import opened DiskFiles

  datatype Entry = Entry(name: string, isDir: bool, inUse: bool, size: nat, capacity: nat, data: array?<byte>)

  /** The entry and its buffer hold what the file says. */
  ghost predicate Agrees(e: Entry, f: File)
    reads e.data
  {
    && e.name == f.name && e.isDir == f.isDir && e.inUse == f.inUse && e.size == f.size
    && e.capacity == |f.buffer|
    && (if e.data == null then f.buffer == [] else e.data[..] == f.buffer)
  }

  /** A write of n bytes ends below 2^31, and so does its buffer when there is memory for it. */
  predicate EndsInRange(d: Disk, fd: int, n: nat, memory: bool) {
    IsOpen(d, fd) ==>
      var end := d.positions[fd] + n; end < 0x8000_0000 && (memory ==> NewCapacity(end) < 0x8000_0000)
  }

  predicate Differ(a: object, b: object) {
    a != b
  }

  class Store {
    const entries: array<Entry>
    const openFds: array<int>
    const openPos: array<nat>
    var count: nat
    ghost var disk: Disk

    ghost function Buffers(): set<array<byte>>
      requires count <= entries.Length
      reads this, entries
    {
      set i | 0 <= i < count && entries[i].data != null :: entries[i].data
    }

    ghost predicate Valid()
      reads this, entries, openFds, openPos, if count <= entries.Length then Buffers() else {}
    {
      && entries.Length == MAX_FILES && openFds.Length == openPos.Length == 64
      && count == |disk.files| <= MAX_FILES
      && openFds[..] == disk.fds && openPos[..] == disk.positions
      && Separate()
      && (forall i :: 0 <= i < count ==> Agrees(entries[i], disk.files[i]))
    }

    /** No two tables or buffers are the same object. */
    ghost predicate Separate()
      requires count <= entries.Length
      reads this, entries
    {
      && Differ(entries, openFds) && Differ(entries, openPos) && Differ(openFds, openPos)
      && (forall i :: 0 <= i < count && entries[i].data != null ==> OffTables(entries[i].data))
      && (forall i, j :: 0 <= i < j < count && entries[i].data != null ==> entries[i].data != entries[j].data)
    }

    predicate OffTables(b: array<byte>) {
      Differ(b, entries) && Differ(b, openFds) && Differ(b, openPos)
    }

    // rd_open_fds etc. as vfs_init_ramdisk leaves them, before its directories
    constructor ()
      ensures Valid() && fresh(entries) && fresh(openFds) && fresh(openPos)
      ensures disk == Disk([], seq(64, _ => -1), seq(64, _ => 0)) && Inv(disk)
    {
      entries := new Entry[MAX_FILES](_ => Entry("", false, false, 0, 0, null));
      openFds := new int[64](_ => -1);
      openPos := new nat[64](_ => 0);
      count := 0;
      disk := Disk([], seq(64, _ => -1), seq(64, _ => 0));
      new;
      assert openFds[..] == disk.fds && openPos[..] == disk.positions;
    }

    predicate Opened(fd: int)
      requires openFds.Length == 64
      reads openFds
    {
      0 <= fd < 64 && openFds[fd] != -1
    }

    method FindFile(name: string) returns (i: int)
      requires Valid()
      ensures i == if Find(disk.files, name) < count then Find(disk.files, name) else -1
    {
      i := 0;
      while i < count
        invariant 0 <= i <= count && Find(disk.files, name) == Find(disk.files, name, i)
      {
        if entries[i].inUse && entries[i].name == name {
          return;
        }
        i := i + 1;
      }
      i := -1;
    }

    method Create(name: string, isDir: bool) returns (idx: int)
      requires Valid()
      modifies this, entries
      ensures Valid() && (disk, idx) == DiskFiles.Create(old(disk), name, isDir)
      ensures forall i :: 0 <= i < old(count) ==> entries[i] == old(entries[i])
    {
      if count >= MAX_FILES {
        return -1;
      }
      idx := count;
      entries[idx] := Entry(Stored(name), isDir, true, 0, 0, null);
      count := count + 1;
      disk := DiskFiles.Create(disk, name, isDir).0;
    }

    method Open(path: string, create: bool) returns (fd: int)
      requires Valid() && Inv(disk)
      modifies this, entries, openFds, openPos
      ensures Valid() && (disk, fd) == DiskFiles.Open(old(disk), path, create)
    {
      var name := Strip(path);
      if name == "" {
        name := ".";
      }
      var idx := FindFile(name);
      if idx < 0 && create {
        idx := Create(name, false);
        if idx < 0 {
          return -1;
        }
      }
      if idx < 0 {
        return -1;
      }
      fd := TakeFd(idx);
    }

    method TakeFd(idx: nat) returns (fd: int)
      requires Valid()
      modifies this`disk, openFds, openPos
      ensures Valid()
      ensures var k := FreeFd(old(disk).fds);
        if k == 64 then fd == -1 && disk == old(disk)
        else fd == k && disk == old(disk).(fds := old(disk).fds[k := idx], positions := old(disk).positions[k := 0])
    {
      fd := 0;
      while fd < 64
        invariant 0 <= fd <= 64 && FreeFd(disk.fds) == FreeFd(disk.fds, fd)
      {
        if openFds[fd] == -1 {
          openFds[fd] := idx;
          openPos[fd] := 0;
          disk := disk.(fds := disk.fds[fd := idx], positions := disk.positions[fd := 0]);
          return;
        }
        fd := fd + 1;
      }
      fd := -1;
    }

    method Close(fd: int) returns (r: int)
      requires Valid() && Inv(disk)
      modifies this, openFds
      ensures Valid() && (disk, r) == DiskFiles.Close(old(disk), fd)
    {
      if !Opened(fd) {
        return -1;
      }
      assert FdFits(disk, fd);
      openFds[fd] := -1;
      disk := DiskFiles.Close(disk, fd).0;
      return 0;
    }

    /** ramdisk_read into `dst`: the number of bytes, -1 for a descriptor that is not open. */
    method Read(fd: int, dst: array<byte>, n: nat) returns (r: int)
      requires Valid() && Inv(disk) && n <= dst.Length && dst !in Buffers()
      requires OffTables(dst)
      modifies this, openPos, dst
      ensures Valid() && disk == DiskFiles.Read(old(disk), fd, n).0
      ensures !IsOpen(old(disk), fd) ==> r == -1
      ensures IsOpen(old(disk), fd) ==> 0 <= r <= n && dst[..r] == DiskFiles.Read(old(disk), fd, n).1
      ensures r >= 0 ==> dst[r..] == old(dst[r..])
    {
      if !Opened(fd) {
        return -1;
      }
      assert FdFits(disk, fd);
      var idx := openFds[fd];
      var pos := openPos[fd];
      if pos >= entries[idx].size {
        return 0;
      }
      var avail := entries[idx].size - pos;
      var toRead := if n < avail then n else avail;
      CopyIn(dst, 0, entries[idx].data, pos, toRead);
      openPos[fd] := openPos[fd] + toRead;
      disk := DiskFiles.Read(disk, fd, n).0;
      return toRead;
    }

    /** ramdisk_write of `data`; kmalloc succeeds when `memory` says so, and then gives `got`. */
    method Write(fd: int, data: seq<byte>, memory: bool) returns (r: int, ghost got: Allocation)
      requires Valid() && Inv(disk)
      requires EndsInRange(disk, fd, |data|, memory)
      modifies this, entries, openPos, Buffers()
      ensures got.Bytes? <==> memory
      ensures Writable(old(disk), fd, data, got)
      ensures Valid() && (disk, r) == DiskFiles.Write(old(disk), fd, data, got)
    {
      got := NoMemory;
      if memory {
        got := Bytes(seq(NewCapacity(if IsOpen(disk, fd) then disk.positions[fd] + |data| else 0), _ => 0));
      }
      if !Opened(fd) {
        return -1, got;
      }
      assert FdFits(disk, fd);
      var idx := openFds[fd];
      var pos := openPos[fd];
      ghost var before := disk;
      CapacityCovers(pos + |data|);
      assert before.files[idx := before.files[idx]] == before.files;
      GrowthTestExact(pos, |data|, entries[idx].capacity);
      if GrowthTest(pos, |data|, entries[idx].capacity) {
        if !memory {
          return -1, got;
        }
        got := Grow(idx, pos + |data|);
      }
      Lay(fd, idx, pos, data, before, got);
      r := |data|;
    }

    // The copy into a buffer with room, and the tail.
    method Lay(fd: nat, idx: nat, pos: nat, data: seq<byte>, ghost before: Disk, ghost got: Allocation)
      requires Valid() && Inv(before) && IsOpen(before, fd) && idx == before.fds[fd] && pos == before.positions[fd]
      requires Writable(before, fd, data, got) && (Grows(before, fd, |data|) ==> got.Bytes?)
      requires before.files[idx].size <= |before.files[idx].buffer|
      requires Grows(before, fd, |data|) ==> before.files[idx].size <= |got.bytes|
      requires var f := before.files[idx]; var f1 := f.(buffer := Room(f, Grows(before, fd, |data|), got));
        disk == before.(files := before.files[idx := f1]) && pos + |data| <= |f1.buffer|
      modifies this`disk, entries, openPos, Buffers()
      ensures Valid() && (disk, |data|) == DiskFiles.Write(before, fd, data, got)
    {
      ghost var f1 := disk.files[idx];
      Overlay(idx, pos, data);
      ghost var f2 := disk.files[idx];
      Advance(fd, idx, pos + |data|);
      WriteSteps(before, fd, data, got, f1, f2, disk.files[idx]);
    }

    // The tail of a write: the position moves on, and the size with it.
    method Advance(fd: nat, idx: nat, end: nat)
      requires Valid() && fd < 64 && idx < count
      modifies this`disk, entries, openPos
      ensures Valid() && disk.fds == old(disk).fds
      ensures disk.positions == old(disk).positions[fd := end]
      ensures var f := old(disk).files[idx];
        disk.files == old(disk).files[idx := f.(size := if end > f.size then end else f.size)]
    {
      openPos[fd] := end;
      if openPos[fd] > entries[idx].size {
        entries[idx] := entries[idx].(size := openPos[fd]);
      }
      ghost var f := disk.files[idx];
      disk := disk.(files := disk.files[idx := f.(size := if end > f.size then end else f.size)],
                    positions := disk.positions[fd := end]);
    }

    method Seek(fd: int, offset: int32, whence: Whence) returns (r: int)
      requires Valid() && Inv(disk)
      modifies this`disk, openPos
      ensures Valid() && (disk, r) == DiskFiles.Seek(old(disk), fd, offset, whence)
    {
      if !Opened(fd) {
        return -1;
      }
      assert FdFits(disk, fd);
      var newPos: int;
      match whence {
        case SeekSet => newPos := offset;
        case SeekCur => newPos := Signed(openPos[fd] + offset);
        case SeekEnd => newPos := Signed(entries[openFds[fd]].size + offset);
        case SeekOther => return -1;
      }
      if newPos < 0 {
        newPos := 0;
      }
      if newPos > entries[openFds[fd]].size {
        newPos := entries[openFds[fd]].size;
      }
      openPos[fd] := newPos;
      disk := DiskFiles.Seek(disk, fd, offset, whence).0;
      return newPos;
    }

    method Truncate(fd: int, size: nat) returns (r: int)
      requires Valid() && Inv(disk)
      modifies this`disk, entries
      ensures Valid() && (disk, r) == DiskFiles.Truncate(old(disk), fd, size)
    {
      if !Opened(fd) {
        return -1;
      }
      assert FdFits(disk, fd);
      entries[openFds[fd]] := entries[openFds[fd]].(size := size);
      disk := DiskFiles.Truncate(disk, fd, size).0;
      return 0;
    }

    // rd_files[idx].in_use = 0
    method Remove(idx: nat)
      requires Valid() && idx < count
      modifies this`disk, entries
      ensures Valid() && var f := old(disk).files[idx];
        disk == old(disk).(files := old(disk).files[idx := f.(inUse := false)])
    {
      entries[idx] := entries[idx].(inUse := false);
      disk := disk.(files := disk.files[idx := disk.files[idx].(inUse := false)]);
    }

    /** ramdisk_unlink; the freed buffer is not used again while no descriptor is open on it. */
    method Unlink(path: string) returns (r: int)
      requires Valid()
      modifies this`disk, entries
      ensures Valid() && (disk, r) == DiskFiles.Unlink(old(disk), path)
    {
      var name := Strip(path);
      var idx := FindFile(name);
      if idx < 0 {
        return -1;
      }
      Remove(idx);
      return 0;
    }

    method Mkdir(path: string) returns (r: int)
      requires Valid()
      modifies this, entries
      ensures Valid() && (disk, r) == DiskFiles.Mkdir(old(disk), path)
    {
      var name := Strip(path);
      r := Create(name, true);
    }

    // The new buffer of a write: page-rounded, starting with the content; the old one is freed.
    method Grow(idx: nat, n: nat) returns (ghost got: Allocation)
      requires Valid() && idx < count && n < 0x8000_0000
      requires disk.files[idx].size <= |disk.files[idx].buffer| < n
      modifies this`disk, entries
      ensures got.Bytes? && |got.bytes| == NewCapacity(n)
      ensures Valid() && fresh(entries[idx].data)
      ensures disk.fds == old(disk).fds && disk.positions == old(disk).positions
      ensures forall i :: 0 <= i < count && i != idx ==> entries[i] == old(entries[i])
      ensures var f := old(disk).files[idx]; disk.files == old(disk).files[idx := f.(buffer := Room(f, true, got))]
    {
      var newData;
      newData, got := Regrown(entries[idx], disk.files[idx], n);
      entries[idx] := entries[idx].(data := newData, capacity := newData.Length);
      disk := disk.(files := disk.files[idx := disk.files[idx].(buffer := Room(disk.files[idx], true, got))]);
    }

    // memcpy(data + pos, buf, size)
    method Overlay(idx: nat, pos: nat, data: seq<byte>)
      requires Valid() && idx < count && pos + |data| <= |disk.files[idx].buffer|
      modifies this`disk, Buffers()
      ensures Valid() && disk.fds == old(disk).fds && disk.positions == old(disk).positions
      ensures var f := old(disk).files[idx];
        disk.files == old(disk).files[idx := f.(buffer := Overwrite(f.buffer, pos, data))]
    {
      if data != [] {
        StoreAt(entries[idx].data, pos, data);
      }
      ghost var f := disk.files[idx];
      disk := disk.(files := disk.files[idx := f.(buffer := Overwrite(f.buffer, pos, data))]);
    }
  }

  // kmalloc of the page-rounded capacity, and memcpy of the content
  method Regrown(e: Entry, ghost f: File, n: nat) returns (newData: array<byte>, ghost got: Allocation)
    requires Agrees(e, f) && f.size <= |f.buffer| < n < 0x8000_0000
    ensures fresh(newData) && got.Bytes? && |got.bytes| == NewCapacity(n) == newData.Length && n <= newData.Length
    ensures newData[..] == Room(f, true, got)
  {
    var newCap := RoundUp(n);
    CapacityCovers(n);
    newData := new byte[newCap];
    got := Bytes(newData[..]);
    if e.data != null {
      CopyIn(newData, 0, e.data, 0, e.size);
    }
    assert newData[..] == Room(f, true, got);
  }

  // `(n + 4095) & ~4095`
  method RoundUp(n: nat) returns (r: nat)
    requires n < 0x8000_0000
    ensures r == NewCapacity(n)
  {
    FrameMask(n + 4095);
    r := BitAnd(n + 4095, 0xFFFFF000);
  }

  method StoreAt(dst: array<byte>, at: nat, data: seq<byte>)
    requires at + |data| <= dst.Length
    modifies dst
    ensures dst[..] == Overwrite(old(dst[..]), at, data)
  {
    for i := 0 to |data|
      invariant dst[..at] == old(dst[..at]) && dst[at + |data|..] == old(dst[at + |data|..])
      invariant dst[at..at + i] == data[..i]
    {
      dst[at + i] := data[i];
    }
    assert dst[..] == dst[..at] + dst[at..at + |data|] + dst[at + |data|..];
  }

  // memcpy between two arrays
  method CopyIn(dst: array<byte>, at: nat, src: array<byte>, from: nat, n: nat)
    requires at + n <= dst.Length && from + n <= src.Length && dst != src
    modifies dst
    ensures dst[..] == old(dst[..at]) + src[from..from + n] + old(dst[at + n..])
  {
    for i := 0 to n
      invariant dst[..at] == old(dst[..at]) && dst[at + n..] == old(dst[at + n..])
      invariant dst[at..at + i] == src[from..from + i] && dst[at + i..] == old(dst[at + i..])
    {
      dst[at + i] := src[from + i];
    }
    assert dst[..] == dst[..at] + dst[at..at + n] + dst[at + n..];
  }

  method Strip(path: string) returns (p: string)
    ensures p == SkipSlashes(path)
  {
    p := path;
    while p != "" && p[0] == '/'
      invariant SkipSlashes(p) == SkipSlashes(path)
      decreases |p|
    {
      p := p[1..];
    }
  }
}
