/** The in-memory filesystem of src/fs/ramdisk.c as a value: growable buffers, a file table whose
    entries are never reused, and descriptors with their own positions. */
module DiskFiles {
  import opened Machine

  const MAX_FILES: nat := 256

  /** A file: `size` bytes of content at the start of a buffer as long as its capacity. */
  datatype File = File(name: string, isDir: bool, inUse: bool, buffer: seq<byte>, size: nat)

  /** fds[fd] is a file index, -1 when the descriptor is free. */
  datatype Disk = Disk(files: seq<File>, fds: seq<int>, positions: seq<nat>)

  /** What kmalloc gave for a new buffer: nothing, or bytes of any content. */
  datatype Allocation = NoMemory | Bytes(bytes: seq<byte>)

  datatype Whence = SeekSet | SeekCur | SeekEnd | SeekOther

  function Content(f: File): seq<byte>
    requires f.size <= |f.buffer|
  {
    f.buffer[..f.size]
  }

  // ---------------------------------------------------------------- paths

  function SkipSlashes(path: string): string {
    if path != "" && path[0] == '/' then SkipSlashes(path[1..]) else path
  }

  /** strncpy into a zeroed 64-byte field with limit 63 */
  function Stored(name: string): string {
    if |name| <= 63 then name else name[..63]
  }

  function Find(files: seq<File>, name: string, from: nat := 0): (i: nat)
    requires from <= |files|
    ensures from <= i <= |files|
    ensures i < |files| ==> files[i].inUse && files[i].name == name
    ensures forall j :: from <= j < i ==> !(files[j].inUse && files[j].name == name)
    decreases |files| - from
  {
    if from == |files| || (files[from].inUse && files[from].name == name) then from
    else Find(files, name, from + 1)
  }

  function FreeFd(fds: seq<int>, from: nat := 0): (i: nat)
    requires from <= |fds|
    ensures from <= i <= |fds|
    ensures i < |fds| ==> fds[i] == -1
    ensures forall j :: from <= j < i ==> fds[j] != -1
    decreases |fds| - from
  {
    if from == |fds| || fds[from] == -1 then from else FreeFd(fds, from + 1)
  }

  // ---------------------------------------------------------------- operations

  predicate IsOpen(d: Disk, fd: int) {
    0 <= fd < 64 && fd < |d.fds| && fd < |d.positions| && 0 <= d.fds[fd] < |d.files|
  }

  /** rd_create: the new index, -1 when the table is full. */
  function Create(d: Disk, name: string, isDir: bool): (Disk, int) {
    if |d.files| >= MAX_FILES then (d, -1)
    else (d.(files := d.files + [File(Stored(name), isDir, true, [], 0)]), |d.files|)
  }

  /** ramdisk_open; `create` is the VFS_MODE_CREATE bit. A file created stays even when no
      descriptor is left. */
  function Open(d: Disk, path: string, create: bool): (Disk, int)
    requires |d.fds| == |d.positions| == 64
  {
    var p := SkipSlashes(path);
    var name := if p == "" then "." else p;
    var i: int := Find(d.files, name);
    if i == |d.files| && !create then (d, -1) else
    var (d', idx) := if i < |d.files| then (d, i) else Create(d, name, false);
    if idx < 0 then (d', -1) else
    var fd: int := FreeFd(d.fds);
    if fd == 64 then (d', -1) else (d'.(fds := d.fds[fd := idx], positions := d.positions[fd := 0]), fd)
  }

  function Close(d: Disk, fd: int): (Disk, int) {
    if !IsOpen(d, fd) then (d, -1) else (d.(fds := d.fds[fd := -1]), 0)
  }

  /** ramdisk_read: the bytes read, or nothing for a descriptor that is not open. */
  function Read(d: Disk, fd: int, n: nat): (Disk, seq<byte>)
    requires forall i :: 0 <= i < |d.files| ==> d.files[i].size <= |d.files[i].buffer|
  {
    if !IsOpen(d, fd) then (d, []) else
    var c := Content(d.files[d.fds[fd]]);
    var pos := d.positions[fd];
    if pos >= |c| then (d, []) else
    var k := if n < |c| - pos then n else |c| - pos;
    (d.(positions := d.positions[fd := pos + k]), c[pos..pos + k])
  }

  function NewCapacity(n: nat): nat {
    (n + 4095) / 4096 * 4096
  }

  /** The bytes of `data` laid over `buffer` at `pos`. */
  function Overwrite(buffer: seq<byte>, pos: nat, data: seq<byte>): (r: seq<byte>)
    requires pos + |data| <= |buffer|
    ensures |r| == |buffer|
  {
    buffer[..pos] + data + buffer[pos + |data|..]
  }

  predicate Grows(d: Disk, fd: int, n: nat)
    requires IsOpen(d, fd)
  {
    d.positions[fd] + n > |d.files[d.fds[fd]].buffer|
  }

  /** The buffer a write works on: the old one, or a new one that starts with the content. */
  function Room(f: File, grows: bool, got: Allocation): seq<byte>
    requires f.size <= |f.buffer|
    requires grows ==> got.Bytes? && f.size <= |got.bytes|
  {
    if grows then Overwrite(got.bytes, 0, Content(f)) else f.buffer
  }

  /** A write that ends below 2^31, and gets the buffer it asks for, or none. */
  predicate Writable(d: Disk, fd: int, data: seq<byte>, got: Allocation) {
    IsOpen(d, fd) ==>
      && d.positions[fd] + |data| < 0x8000_0000
      && (got.Bytes? ==> |got.bytes| == NewCapacity(d.positions[fd] + |data|) < 0x8000_0000)
  }

  function Write(d: Disk, fd: int, data: seq<byte>, got: Allocation): (Disk, int)
    requires Inv(d) && Writable(d, fd, data, got)
  {
    if !IsOpen(d, fd) then (d, -1) else
    var grows := Grows(d, fd, |data|);
    if grows && got.NoMemory? then (d, -1) else
    var i, pos := d.fds[fd], d.positions[fd];
    var f := d.files[i];
    CapacityCovers(pos + |data|);
    assert f.size <= |f.buffer|;
    var end := pos + |data|;
    var f' := f.(buffer := Overwrite(Room(f, grows, got), pos, data), size := if end > f.size then end else f.size);
    (d.(files := d.files[i := f'], positions := d.positions[fd := end]), |data|)
  }

  lemma CapacityCovers(n: nat)
    ensures n <= NewCapacity(n) < n + 4096
  {
  }

  /** `pos + (int)size > (int)capacity`, the code's test for a larger buffer, in 32 bits. */
  predicate GrowthTest(pos: int32, n: u32, capacity: u32) {
    Signed(pos + Signed(n)) > Signed(capacity)
  }

  /** The test finds that the bytes do not fit exactly when they end below 2^31; a longer write is
      copied into the buffer there is. */
  lemma GrowthTestExact(pos: nat, n: u32, capacity: nat)
    requires pos <= capacity < 0x8000_0000
    ensures (GrowthTest(pos, n, capacity) <==> pos + n > capacity) <==> pos + n < 0x8000_0000
  {
    SignedNear(n);
    SignedNear(capacity);
    SignedNear(pos + Signed(n));
  }

  function Clamp(x: int, hi: nat): nat {
    if x < 0 then 0 else if x > hi then hi else x
  }

  /** ramdisk_seek: the sum is a signed 32-bit one. */
  function Seek(d: Disk, fd: int, offset: int32, whence: Whence): (Disk, int) {
    if !IsOpen(d, fd) || whence == SeekOther then (d, -1) else
    var size := d.files[d.fds[fd]].size;
    var target := match whence
      case SeekSet => offset
      case SeekCur => Signed(d.positions[fd] + offset)
      case _ => Signed(size + offset);
    var pos: int := Clamp(target, size);
    (d.(positions := d.positions[fd := pos]), pos)
  }

  /** ramdisk_truncate sets the size, whatever the capacity and the open positions. */
  function Truncate(d: Disk, fd: int, size: nat): (Disk, int) {
    if !IsOpen(d, fd) then (d, -1) else
    var i := d.fds[fd];
    (d.(files := d.files[i := d.files[i].(size := size)]), 0)
  }

  /** unlink frees the data and gives up the entry, open or not. */
  function Unlink(d: Disk, path: string): (Disk, int) {
    var i := Find(d.files, SkipSlashes(path));
    if i == |d.files| then (d, -1) else (d.(files := d.files[i := d.files[i].(inUse := false)]), 0)
  }

  /** ramdisk_mkdir does not look for an entry of the same name. */
  function Mkdir(d: Disk, path: string): (Disk, int) {
    Create(d, SkipSlashes(path), true)
  }

  // ---------------------------------------------------------------- invariant

  /** Sizes within capacities below 2^31; open descriptors on files in use, at positions within them. */
  ghost predicate Inv(d: Disk) {
    && |d.fds| == |d.positions| == 64 && |d.files| <= MAX_FILES
    && (forall i :: 0 <= i < |d.files| ==> d.files[i].size <= |d.files[i].buffer| < 0x8000_0000)
    && (forall fd :: 0 <= fd < 64 ==> FdFits(d, fd))
  }

  predicate FdFits(d: Disk, fd: nat)
    requires fd < |d.fds| && fd < |d.positions|
  {
    d.fds[fd] == -1 ||
    (0 <= d.fds[fd] < |d.files| && d.files[d.fds[fd]].inUse && d.positions[fd] <= d.files[d.fds[fd]].size)
  }

  /** The file behind an open descriptor. */
  function FileOf(d: Disk, fd: int): File
    requires IsOpen(d, fd)
  {
    d.files[d.fds[fd]]
  }

  /** `data` replaces the bytes from pos on, and extends the sequence when it reaches further. */
  function Splice(c: seq<byte>, pos: nat, data: seq<byte>): seq<byte>
    requires pos <= |c|
  {
    c[..pos] + data + (if pos + |data| <= |c| then c[pos + |data|..] else [])
  }

  // ---------------------------------------------------------------- the operations on contents

  /** A write replaces and extends the content exactly at the descriptor's position, grown or not,
      moves that position past the data, and leaves every other file and position alone. It fails,
      changing nothing, only for a descriptor that is not open or a buffer that cannot be had. */
  lemma WriteCorrect(d: Disk, fd: int, data: seq<byte>, got: Allocation)
    requires Inv(d) && Writable(d, fd, data, got)
    ensures Inv(Write(d, fd, data, got).0)
    ensures var (d', r) := Write(d, fd, data, got);
      if IsOpen(d, fd) && (Grows(d, fd, |data|) ==> got.Bytes?) then
        && r == |data| && IsOpen(d', fd) && d.positions[fd] <= |Content(FileOf(d, fd))|
        && Content(FileOf(d', fd)) == Splice(Content(FileOf(d, fd)), d.positions[fd], data)
        && d'.positions == d.positions[fd := d.positions[fd] + |data|] && d'.fds == d.fds
        && |d'.files| == |d.files| && (forall i :: 0 <= i < |d.files| && i != d.fds[fd] ==> d'.files[i] == d.files[i])
      else r == -1 && d' == d
  {
    if IsOpen(d, fd) && (Grows(d, fd, |data|) ==> got.Bytes?) {
      var (d', r) := Write(d, fd, data, got);
      var f, pos := FileOf(d, fd), d.positions[fd];
      assert FdFits(d, fd);
      CapacityCovers(pos + |data|);
      WriteContent(f, Grows(d, fd, |data|), got, pos, data);
      forall fd' | 0 <= fd' < 64
        ensures FdFits(d', fd')
      {
        assert FdFits(d, fd');
      }
    }
  }

  // A write put together from its three updates of the one file.
  lemma WriteSteps(d: Disk, fd: int, data: seq<byte>, got: Allocation, f1: File, f2: File, f3: File)
    requires Inv(d) && IsOpen(d, fd) && (Grows(d, fd, |data|) ==> got.Bytes?) && Writable(d, fd, data, got)
    requires var f := FileOf(d, fd); var pos := d.positions[fd]; var end := pos + |data|;
      && f.size <= |f.buffer| && (Grows(d, fd, |data|) ==> f.size <= |got.bytes|)
      && f1 == f.(buffer := Room(f, Grows(d, fd, |data|), got))
      && end <= |f1.buffer| && f2 == f1.(buffer := Overwrite(f1.buffer, pos, data))
      && f3 == f2.(size := if end > f.size then end else f.size)
    ensures var i := d.fds[fd];
      Write(d, fd, data, got) == (d.(files := d.files[i := f1][i := f2][i := f3],
                                     positions := d.positions[fd := d.positions[fd] + |data|]), |data|)
  {
    var i := d.fds[fd];
    assert d.files[i := f1][i := f2][i := f3] == d.files[i := f3];
  }

  lemma WriteContent(f: File, grows: bool, got: Allocation, pos: nat, data: seq<byte>)
    requires pos <= f.size <= |f.buffer| && (!grows ==> pos + |data| <= |f.buffer|)
    requires grows ==> got.Bytes? && f.size <= |got.bytes| && pos + |data| <= |got.bytes|
    ensures var end := pos + |data|; var size := if end > f.size then end else f.size;
      Overwrite(Room(f, grows, got), pos, data)[..size] == Splice(Content(f), pos, data)
  {
    var room := Room(f, grows, got);
    assert room[..f.size] == Content(f);
    assert room[..pos] == Content(f)[..pos];
    if pos + |data| <= f.size {
      assert room[pos + |data|..f.size] == Content(f)[pos + |data|..];
    }
  }

  /** A read yields the content from the descriptor's position on, as much as asked for or left, and
      moves that position past it; nothing else changes. */
  lemma ReadCorrect(d: Disk, fd: int, n: nat)
    requires Inv(d)
    ensures Inv(Read(d, fd, n).0)
    ensures var (d', bytes) := Read(d, fd, n);
      && d'.files == d.files && d'.fds == d.fds
      && (IsOpen(d, fd) ==>
            var c, pos := Content(FileOf(d, fd)), d.positions[fd];
            && pos <= |c| && bytes <= c[pos..] && |bytes| == (if n <= |c| - pos then n else |c| - pos)
            && d'.positions == d.positions[fd := pos + |bytes|])
  {
    if IsOpen(d, fd) {
      assert FdFits(d, fd);
      var d' := Read(d, fd, n).0;
      forall fd' | 0 <= fd' < 64
        ensures FdFits(d', fd')
      {
        assert FdFits(d, fd');
      }
    }
  }

  /** Where a seek is told to go. */
  function Target(d: Disk, fd: int, offset: int32, whence: Whence): int
    requires IsOpen(d, fd)
  {
    match whence
    case SeekSet => offset
    case SeekCur => d.positions[fd] + offset
    case _ => FileOf(d, fd).size + offset
  }

  /** Seeking goes where it is told when that is within the content, and otherwise to the nearer end
      of the content, exactly when the target is below 2^31: from there on the sum wraps and it goes to
      the start. Nothing else changes. Told something else, it changes nothing. */
  lemma SeekCorrect(d: Disk, fd: int, offset: int32, whence: Whence)
    requires Inv(d)
    ensures Inv(Seek(d, fd, offset, whence).0)
    ensures !IsOpen(d, fd) || whence == SeekOther ==> Seek(d, fd, offset, whence) == (d, -1)
    ensures IsOpen(d, fd) && whence != SeekOther ==>
      var (d', r) := Seek(d, fd, offset, whence);
      var target, size := Target(d, fd, offset, whence), FileOf(d, fd).size;
      && 0 <= r <= size && d'.positions == d.positions[fd := r] && d'.files == d.files && d'.fds == d.fds
      && (0 <= target <= size ==> r == target) && (target < 0 || 0x8000_0000 <= target ==> r == 0)
      && (size < target < 0x8000_0000 ==> r == size)
      && (r == Clamp(target, size) <==> target < 0x8000_0000 || size == 0)
  {
    var d' := Seek(d, fd, offset, whence).0;
    if IsOpen(d, fd) && whence != SeekOther {
      assert FdFits(d, fd);
      SignedNear(Target(d, fd, offset, whence));
    }
    forall fd' | 0 <= fd' < 64
      ensures FdFits(d', fd')
    {
      assert FdFits(d, fd');
    }
  }

  // After a write the data stands in the content.
  lemma {:induction false} WrittenIsThere(d: Disk, fd: int, data: seq<byte>, got: Allocation)
    requires Inv(d) && IsOpen(d, fd) && got.Bytes? && Writable(d, fd, data, got)
    ensures var d' := Write(d, fd, data, got).0; var pos := d.positions[fd];
      && Inv(d') && IsOpen(d', fd) && d'.fds == d.fds
      && pos + |data| <= |Content(FileOf(d', fd))| && Content(FileOf(d', fd))[pos..pos + |data|] == data
  {
    assert FdFits(d, fd);
    WriteCorrect(d, fd, data, got);
  }

  // A seek to a place in the content and a read take what stands there.
  lemma {:induction false} ReadsAt(d: Disk, fd: int, pos: int32, n: nat)
    requires Inv(d) && IsOpen(d, fd) && 0 <= pos && pos + n <= |Content(FileOf(d, fd))|
    ensures var (d', r) := Seek(d, fd, pos, SeekSet);
      && r == pos && Inv(d') && Read(d', fd, n).1 == Content(FileOf(d, fd))[pos..pos + n]
  {
    SeekCorrect(d, fd, pos, SeekSet);
    ReadCorrect(Seek(d, fd, pos, SeekSet).0, fd, n);
  }

  /** What one descriptor wrote, another one at the same place reads, and so does the same one
      after seeking back. */
  lemma {:induction false} WriteThenRead(d: Disk, fd: int, other: int, data: seq<byte>, got: Allocation)
    requires Inv(d) && IsOpen(d, fd) && IsOpen(d, other) && d.fds[fd] == d.fds[other]
    requires got.Bytes? && Writable(d, fd, data, got)
    ensures d.positions[fd] < 0x8000_0000
    ensures var d1 := Write(d, fd, data, got).0; var d2 := Seek(d1, other, d.positions[fd], SeekSet).0;
      && (forall i :: 0 <= i < |d2.files| ==> d2.files[i].size <= |d2.files[i].buffer|)
      && Read(d2, other, |data|).1 == data
  {
    WrittenIsThere(d, fd, data, got);
    WriteCorrect(d, fd, data, got);
    ReadsAt(Write(d, fd, data, got).0, other, d.positions[fd], |data|);
  }

  /** truncate keeps the disk sound exactly when the new size is within the capacity and no open
      position lies beyond it; a smaller size cuts the content. */
  lemma TruncateCorrect(d: Disk, fd: int, size: nat)
    requires Inv(d) && IsOpen(d, fd)
    ensures Inv(Truncate(d, fd, size).0) <==>
      size <= |FileOf(d, fd).buffer| && Positioned(d, d.fds[fd], size)
    ensures size <= FileOf(d, fd).size ==>
      Content(FileOf(Truncate(d, fd, size).0, fd)) == Content(FileOf(d, fd))[..size]
  {
    var i := d.fds[fd];
    var d' := Truncate(d, fd, size).0;
    assert d'.files[i].size == size;
    if size <= |FileOf(d, fd).buffer| && Positioned(d, i, size) {
      forall fd' | 0 <= fd' < 64
        ensures FdFits(d', fd')
      {
        assert FdFits(d, fd');
      }
    } else if !Positioned(d, i, size) {
      var bad :| 0 <= bad < 64 && d.fds[bad] == i && d.positions[bad] > size;
      assert !FdFits(d', bad);
    }
  }

  predicate Positioned(d: Disk, file: int, size: nat)
    requires |d.fds| == |d.positions| == 64
  {
    forall fd :: 0 <= fd < 64 && d.fds[fd] == file ==> d.positions[fd] <= size
  }

  /** unlink keeps the disk sound exactly when no descriptor is open on the file. */
  lemma UnlinkCorrect(d: Disk, path: string)
    requires Inv(d) && Find(d.files, SkipSlashes(path)) < |d.files|
    ensures Inv(Unlink(d, path).0) <==> Find(d.files, SkipSlashes(path)) !in d.fds
  {
    var i := Find(d.files, SkipSlashes(path));
    var d' := Unlink(d, path).0;
    if i in d.fds {
      var fd :| 0 <= fd < 64 && d.fds[fd] == i;
      assert !FdFits(d', fd);
    } else {
      forall fd | 0 <= fd < 64
        ensures FdFits(d', fd)
      {
        assert FdFits(d, fd);
      }
    }
  }

  lemma CreateKeepsInv(d: Disk, name: string, isDir: bool)
    requires Inv(d)
    ensures Inv(Create(d, name, isDir).0) && d.files <= Create(d, name, isDir).0.files
  {
    var d' := Create(d, name, isDir).0;
    forall fd | 0 <= fd < 64
      ensures FdFits(d', fd)
    {
      assert FdFits(d, fd);
    }
  }

  /** A successful open gives a descriptor that was free, at position 0, on a file in use. */
  lemma {:induction false} OpenCorrect(d: Disk, path: string, create: bool)
    requires Inv(d)
    ensures Inv(Open(d, path, create).0)
    ensures var (d', fd) := Open(d, path, create);
      && d.files <= d'.files
      && (fd == -1 ==> d'.fds == d.fds && d'.positions == d.positions)
      && (fd != -1 ==>
            && 0 <= fd < 64 && d.fds[fd] == -1 && IsOpen(d', fd) && d'.positions[fd] == 0
            && d'.fds == d.fds[fd := d'.fds[fd]] && FileOf(d', fd).inUse)
  {
    var p := SkipSlashes(path);
    var name := if p == "" then "." else p;
    CreateKeepsInv(d, name, false);
    var (d', fd) := Open(d, path, create);
    forall fd' | 0 <= fd' < 64
      ensures FdFits(d', fd')
    {
      assert FdFits(d, fd');
      assert FdFits(Create(d, name, false).0, fd');
    }
  }

  /** A file just created is found again under its name exactly when the name was short enough to
      be stored whole. */
  lemma {:induction false} CreatedIsFound(d: Disk, name: string, isDir: bool)
    requires Find(d.files, name) == |d.files| < MAX_FILES
    ensures Find(Create(d, name, isDir).0.files, name) == |d.files| <==> |name| <= 63
    ensures |name| > 63 ==> Find(Create(d, name, isDir).0.files, name) == |d.files| + 1
  {
    var files := Create(d, name, isDir).0.files;
    assert forall j :: 0 <= j < |d.files| ==> files[j] == d.files[j];
    if |name| <= 63 {
      assert files[|d.files|].name == name;
    } else {
      assert |files[|d.files|].name| == 63;
    }
  }

  // ---------------------------------------------------------------- runs

  datatype Event =
    | OpenEv(path: string, create: bool)
    | CloseEv(fd: int)
    | ReadEv(rfd: int, n: nat)
    | WriteEv(wfd: int, data: seq<byte>, got: Allocation)
    | SeekEv(sfd: int, offset: int32, whence: Whence)
    | TruncateEv(tfd: int, size: nat)
    | UnlinkEv(victim: string)
    | MkdirEv(dir: string)

  /** Writes end below 2^31 and kmalloc gives what was asked for; truncate and unlink stay within what
      TruncateCorrect and UnlinkCorrect ask. */
  ghost predicate Permitted(d: Disk, ev: Event)
    requires Inv(d)
  {
    match ev
    case WriteEv(fd, data, got) => Writable(d, fd, data, got)
    case TruncateEv(fd, size) =>
      IsOpen(d, fd) ==> size <= |FileOf(d, fd).buffer| && Positioned(d, d.fds[fd], size)
    case UnlinkEv(path) => Find(d.files, SkipSlashes(path)) !in d.fds
    case _ => true
  }

  ghost function Step(d: Disk, ev: Event): Disk
    requires Inv(d) && Permitted(d, ev)
  {
    match ev
    case OpenEv(path, create) => Open(d, path, create).0
    case CloseEv(fd) => Close(d, fd).0
    case ReadEv(fd, n) => Read(d, fd, n).0
    case WriteEv(fd, data, got) => Write(d, fd, data, got).0
    case SeekEv(fd, offset, whence) => Seek(d, fd, offset, whence).0
    case TruncateEv(fd, size) => Truncate(d, fd, size).0
    case UnlinkEv(path) => Unlink(d, path).0
    case MkdirEv(path) => Mkdir(d, path).0
  }

  /** Whether an event can change the content of file i. */
  ghost predicate Touches(d: Disk, ev: Event, i: nat) {
    match ev
    case WriteEv(fd, _, _) => IsOpen(d, fd) && d.fds[fd] == i
    case TruncateEv(fd, _) => IsOpen(d, fd) && d.fds[fd] == i
    case _ => false
  }

  lemma {:induction false} StepKeepsInv(d: Disk, ev: Event, i: nat)
    requires Inv(d) && Permitted(d, ev) && i < |d.files|
    ensures Inv(Step(d, ev)) && |d.files| <= |Step(d, ev).files|
    ensures !Touches(d, ev, i) ==>
      Step(d, ev).files[i].buffer == d.files[i].buffer && Step(d, ev).files[i].size == d.files[i].size
  {
    match ev
    case OpenEv(path, create) => OpenCorrect(d, path, create);
    case CloseEv(fd) => CloseKeepsInv(d, fd);
    case ReadEv(fd, n) => ReadCorrect(d, fd, n);
    case WriteEv(fd, data, got) => WriteCorrect(d, fd, data, got);
    case SeekEv(fd, offset, whence) => SeekCorrect(d, fd, offset, whence);
    case TruncateEv(fd, size) => if IsOpen(d, fd) { TruncateCorrect(d, fd, size); }
    case UnlinkEv(path) => if Find(d.files, SkipSlashes(path)) < |d.files| { UnlinkCorrect(d, path); }
    case MkdirEv(path) => CreateKeepsInv(d, SkipSlashes(path), true);
  }

  lemma CloseKeepsInv(d: Disk, fd: int)
    requires Inv(d)
    ensures Inv(Close(d, fd).0)
  {
    var d' := Close(d, fd).0;
    forall fd' | 0 <= fd' < 64
      ensures FdFits(d', fd')
    {
      assert FdFits(d, fd');
    }
  }

  ghost predicate AllPermitted(d: Disk, evs: seq<Event>)
    requires Inv(d) && d.files != []
    decreases |evs|
  {
    evs == [] ||
    (Permitted(d, evs[0]) && (StepKeepsInv(d, evs[0], 0); AllPermitted(Step(d, evs[0]), evs[1..])))
  }

  ghost function Run(d: Disk, evs: seq<Event>): Disk
    requires Inv(d) && d.files != [] && AllPermitted(d, evs)
    decreases |evs|
  {
    if evs == [] then d else StepKeepsInv(d, evs[0], 0); Run(Step(d, evs[0]), evs[1..])
  }

  ghost predicate NeverTouched(d: Disk, evs: seq<Event>, i: nat)
    requires Inv(d) && d.files != [] && AllPermitted(d, evs)
    decreases |evs|
  {
    evs == [] ||
    (!Touches(d, evs[0], i) && (StepKeepsInv(d, evs[0], 0); NeverTouched(Step(d, evs[0]), evs[1..], i)))
  }

  /** Over any permitted run sizes stay within capacities and positions within sizes, and a file
      nobody writes or truncates keeps its content byte for byte. */
  lemma {:induction false} RunKeepsInv(d: Disk, evs: seq<Event>, i: nat)
    requires Inv(d) && i < |d.files| && AllPermitted(d, evs)
    ensures Inv(Run(d, evs)) && i < |Run(d, evs).files|
    ensures NeverTouched(d, evs, i) ==> Content(Run(d, evs).files[i]) == Content(d.files[i])
    decreases |evs|
  {
    if evs != [] {
      StepKeepsInv(d, evs[0], 0);
      StepKeepsInv(d, evs[0], i);
      RunKeepsInv(Step(d, evs[0]), evs[1..], i);
    }
  }
}
