/** The virtual filesystem switch's code (src/fs/vfs.c): static mount and descriptor tables, and
    calls into the ramdisk's code. Other filesystems are parameters. */
module Vfs {
  import opened Machine
  import opened VfsTable
  import D = DiskFiles
  import Ramdisk

  class Switch {
    const mountTable: array<Mount>
    const fdTable: array<Descriptor>
    const disk: Ramdisk.Store
    var mountCount: nat

    ghost predicate Sized()
      reads this
    {
      mountTable.Length == 8 && mountCount <= 8 && fdTable.Length == 64
    }

    /** The switch's tables and the ramdisk's are different objects. */
    ghost predicate Separate()
      requires disk.count <= disk.entries.Length
      reads this, disk, disk.entries
    {
      && Off(disk) && Off(disk.entries) && Off(disk.openFds) && Off(disk.openPos)
      && (forall b :: b in disk.Buffers() ==> Off(b)) && Ramdisk.Differ(mountTable, fdTable)
    }

    predicate Off(o: object) {
      Ramdisk.Differ(mountTable, o) && Ramdisk.Differ(fdTable, o)
    }

    ghost predicate Valid()
      reads this, mountTable, fdTable, disk, disk.entries, disk.openFds, disk.openPos
      reads if disk.count <= disk.entries.Length then disk.Buffers() else {}
    {
      Sized() && disk.Valid() && D.Inv(disk.disk) && Separate()
    }

    ghost function View(): System
      requires Sized()
      reads this, mountTable, fdTable, disk
    {
      System(mountTable[..mountCount], fdTable[..], disk.disk)
    }

    // vfs_init
    constructor (disk: Ramdisk.Store)
      requires disk.Valid() && D.Inv(disk.disk)
      ensures Valid() && this.disk == disk && fresh(mountTable) && fresh(fdTable)
      ensures View().mounts == [] && (forall d :: d in View().fds ==> !d.inUse) && View().disk == disk.disk
    {
      mountTable := new VfsTable.Mount[8](_ => VfsTable.Mount("", false));
      fdTable := new Descriptor[64](_ => Descriptor(false, "", 0, 0));
      this.disk, mountCount := disk, 0;
    }

    // resolve_mount, with the length of the mount's path
    method ResolveMount(path: string) returns (best: int, bestLen: nat)
      requires Sized()
      ensures best == Best(mountTable[..mountCount], path)
      ensures 0 <= best ==> bestLen == |mountTable[best].path| <= |path|
    {
      best, bestLen := -1, 0;
      for i := 0 to mountCount
        invariant best == Best(mountTable[..i], path)
        invariant bestLen == if best < 0 then 0 else |mountTable[best].path|
      {
        var mount := mountTable[i];
        assert mountTable[..i + 1][..i] == mountTable[..i];
        if mount.path <= path && |mount.path| > bestLen {
          bestLen := |mount.path|;
          best := i;
        }
      }
    }

    // vfs_get_free_fd
    method GetFreeFd() returns (fd: nat)
      requires Sized()
      ensures fd == FreeFd(fdTable[..])
    {
      fd := 0;
      while fd < 64 && fdTable[fd].inUse
        invariant fd <= 64 && FreeFd(fdTable[..]) == FreeFd(fdTable[..], fd)
      {
        fd := fd + 1;
      }
    }

    method Mount(path: string, ramdisk: bool)
      requires Valid()
      modifies mountTable, this`mountCount
      ensures Valid()
      ensures View() == AddMount(old(View()), VfsTable.Mount(if |path| <= 255 then path else path[..255], ramdisk))
    {
      if mountCount >= 8 {
        return;
      }
      ghost var before := mountTable[..mountCount];
      mountTable[mountCount] := VfsTable.Mount(if |path| <= 255 then path else path[..255], ramdisk);
      mountCount := mountCount + 1;
      assert mountTable[..mountCount] == before + [mountTable[mountCount - 1]];
    }

    // fs->ops.open(sub, mode)
    method FsOpen(ramdisk: bool, sub: string, create: bool, other: int) returns (data: int)
      requires Valid()
      modifies disk, disk.entries, disk.openFds, disk.openPos
      ensures Valid() && fdTable[..] == old(fdTable[..]) && mountTable[..mountCount] == old(mountTable[..mountCount])
      ensures (disk.disk, data) == if ramdisk then D.Open(old(disk.disk), sub, create) else (old(disk.disk), other)
    {
      data := other;
      if ramdisk {
        D.OpenCorrect(disk.disk, sub, create);
        data := disk.Open(sub, create);
      }
    }

    /** vfs_open on a ramdisk mount, or with another filesystem's answer. */
    method Open(path: string, create: bool, other: int) returns (fd: int)
      requires Valid()
      modifies fdTable, disk, disk.entries, disk.openFds, disk.openPos
      ensures Valid() && (View(), fd) == VfsTable.Open(old(View()), path, create, other)
    {
      var best, bestLen := ResolveMount(path);
      if best < 0 {
        return -1;
      }
      var free := GetFreeFd();
      if free == 64 {
        return -1;
      }
      var sub := SubPath(path, bestLen);
      var data := FsOpen(mountTable[best].ramdisk, sub, create, other);
      if data < 0 {
        return -1;
      }
      fdTable[free] := Descriptor(true, Kept(path), 0, data);
      return free;
    }

    /** vfs_close: the ramdisk's descriptor stays taken. */
    method Close(fd: int) returns (r: int)
      requires Valid()
      modifies fdTable
      ensures Valid() && (View(), r) == VfsTable.Close(old(View()), fd)
    {
      if fd < 0 || fd >= 64 || !fdTable[fd].inUse {
        return -1;
      }
      fdTable[fd] := fdTable[fd].(inUse := false);
      return 0;
    }

    // The part the three operations on descriptors share: whether they reach the ramdisk.
    method Route(fd: int) returns (ok: bool, onDisk: bool)
      requires Sized()
      ensures onDisk == OnDisk(View(), fd)
      ensures ok == (Usable(View(), fd) && 0 <= Best(View().mounts, fdTable[fd].name))
    {
      if fd < 0 || fd >= 64 || !fdTable[fd].inUse {
        return false, false;
      }
      var best, bestLen := ResolveMount(fdTable[fd].name);
      if best < 0 {
        return false, false;
      }
      return true, mountTable[best].ramdisk;
    }

    // if (r > 0) fd_table[fd].pos += r
    method Advance(fd: nat, k: int)
      requires Valid() && fd < 64
      modifies fdTable
      ensures Valid() && var s, d := old(View()), old(fdTable[fd]);
        View() == if k > 0 then s.(fds := s.fds[fd := d.(pos := d.pos + k)]) else s
    {
      if k > 0 {
        fdTable[fd] := fdTable[fd].(pos := fdTable[fd].pos + k);
      }
    }

    /** vfs_read: on a ramdisk descriptor the bytes the ramdisk reads. */
    method Read(fd: int, dst: array<byte>, n: nat, other: int) returns (r: int)
      requires Valid() && n <= dst.Length && dst !in disk.Buffers() && disk.OffTables(dst)
      requires Off(dst)
      modifies fdTable, disk, disk.openPos, dst
      ensures Valid()
      ensures !OnDisk(old(View()), fd) ==> (View(), r) == Elsewhere(old(View()), fd, other)
      ensures OnDisk(old(View()), fd) ==> View() == VfsTable.Read(old(View()), fd, n).0
      ensures OnDisk(old(View()), fd) && D.IsOpen(old(disk.disk), old(View()).fds[fd].data) ==>
        0 <= r <= n && dst[..r] == VfsTable.Read(old(View()), fd, n).1
    {
      var ok, onDisk := Route(fd);
      if !ok {
        return -1;
      }
      if onDisk {
        D.ReadCorrect(disk.disk, fdTable[fd].data, n);
        r := disk.Read(fdTable[fd].data, dst, n);
      } else {
        r := other;
      }
      Advance(fd, r);
    }

    /** vfs_seek: the ramdisk's position moves, the switch's own does not. */
    method Seek(fd: int, offset: int32, whence: D.Whence, other: int) returns (r: int)
      requires Valid()
      modifies disk`disk, disk.openPos
      ensures Valid()
      ensures !OnDisk(old(View()), fd) ==> View() == old(View()) && r == Elsewhere(old(View()), fd, other).1
      ensures OnDisk(old(View()), fd) ==> (View(), r) == VfsTable.Seek(old(View()), fd, offset, whence)
    {
      var ok, onDisk := Route(fd);
      if !ok {
        return -1;
      }
      if onDisk {
        D.SeekCorrect(disk.disk, fdTable[fd].data, offset, whence);
        r := disk.Seek(fdTable[fd].data, offset, whence);
      } else {
        r := other;
      }
    }

    // fs->ops.write(data, buf, size) of the ramdisk
    method FsWrite(at: int, data: seq<byte>, memory: bool) returns (r: int, ghost got: D.Allocation)
      requires Valid() && Ramdisk.EndsInRange(disk.disk, at, |data|, memory)
      modifies disk, disk.entries, disk.openPos, disk.Buffers()
      ensures Valid() && fdTable[..] == old(fdTable[..]) && mountTable[..mountCount] == old(mountTable[..mountCount])
      ensures D.Writable(old(disk.disk), at, data, got)
      ensures (disk.disk, r) == D.Write(old(disk.disk), at, data, got)
    {
      ghost var d := disk.disk;
      r, got := disk.Write(at, data, memory);
      D.WriteCorrect(d, at, data, got);
    }

    /** vfs_write: on a ramdisk descriptor what the ramdisk writes. */
    method Write(fd: int, data: seq<byte>, memory: bool, other: int) returns (r: int, ghost got: D.Allocation)
      requires Valid()
      requires OnDisk(View(), fd) ==> Ramdisk.EndsInRange(disk.disk, fdTable[fd].data, |data|, memory)
      modifies fdTable, disk, disk.entries, disk.openPos, disk.Buffers()
      ensures Valid()
      ensures !OnDisk(old(View()), fd) ==> (View(), r) == Elsewhere(old(View()), fd, other)
      ensures OnDisk(old(View()), fd) ==> D.Writable(old(disk.disk), old(View()).fds[fd].data, data, got)
      ensures OnDisk(old(View()), fd) ==> (View(), r) == VfsTable.Write(old(View()), fd, data, got)
    {
      got := D.NoMemory;
      var ok, onDisk := Route(fd);
      if !ok {
        return -1, got;
      }
      if onDisk {
        r, got := FsWrite(fdTable[fd].data, data, memory);
      } else {
        r := other;
      }
      Advance(fd, r);
    }
  }

  // path + best_len, and the slash skipped when more follows it
  method SubPath(path: string, len: nat) returns (sub: string)
    requires len <= |path|
    ensures sub == Below(path, len)
  {
    sub := path[len..];
    if |sub| >= 2 && sub[0] == '/' {
      sub := sub[1..];
    }
  }
}
