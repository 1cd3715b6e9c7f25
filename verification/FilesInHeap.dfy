/** The ramdisk's file data in the kernel heap (src/fs/ramdisk.c over src/mm/kmalloc.c): every file's
    buffer is a live payload of the one byte array that also holds the block headers, and growing a
    file is a kmalloc, a copy and a kfree among the calls of other clients. */
module FilesInHeap {
  import opened Machine
  import opened BlockList
  import opened HeapBytes
  import D = DiskFiles
  import Pmm

  /** The file table, the heap, and rd_files[i].data for every entry. */
  datatype Store = Store(disk: D.Disk, heap: State, data: seq<nat>)

  // ---------------------------------------------------------------- bytes

  /** The bytes at p are those of buf. */
  ghost predicate BytesAt(m: seq<byte>, p: nat, buf: seq<byte>) {
    p + |buf| <= |m| && forall k :: 0 <= k < |buf| ==> m[p + k] == buf[k]
  }

  // memcpy to an address
  ghost predicate StoredAt(m: seq<byte>, m': seq<byte>, at: nat, data: seq<byte>) {
    Changed(m, m', at, at + |data|) && BytesAt(m', at, data)
  }

  lemma BytesKept(m: seq<byte>, m': seq<byte>, p: nat, n: nat, buf: seq<byte>)
    requires BytesAt(m, p, buf) && |m| == |m'| && |buf| <= n && SameOn(m, m', p, n)
    ensures BytesAt(m', p, buf)
  {
  }

  lemma BytesOver(m: seq<byte>, m': seq<byte>, p: nat, pos: nat, data: seq<byte>, buf: seq<byte>)
    requires BytesAt(m, p, buf) && pos + |data| <= |buf| && StoredAt(m, m', p + pos, data)
    ensures BytesAt(m', p, D.Overwrite(buf, pos, data))
  {
    forall k | 0 <= k < |buf|
      ensures m'[p + k] == D.Overwrite(buf, pos, data)[k]
    {
      if pos <= k < pos + |data| {
        assert m'[p + pos + (k - pos)] == data[k - pos];
      }
    }
  }

  // ---------------------------------------------------------------- agreement

  /** An entry without data has an empty buffer; any other has its buffer in a live payload. */
  ghost predicate FileHeld(heap: State, m: seq<byte>, f: D.File, p: nat) {
    if p == 0 then f.buffer == []
    else p in Live(heap.blocks) && |f.buffer| <= Live(heap.blocks)[p] && BytesAt(m, p, f.buffer)
  }

  /** The files in use are held, each in a payload of its own. */
  ghost predicate AllHeld(st: Store, m: seq<byte>) {
    && |st.data| == |st.disk.files|
    && (forall i :: 0 <= i < |st.data| && st.disk.files[i].inUse ==> FileHeld(st.heap, m, st.disk.files[i], st.data[i]))
    && (forall i, j :: 0 <= i < j < |st.data| && st.disk.files[i].inUse && st.disk.files[j].inUse && st.data[i] != 0 ==>
          st.data[i] != st.data[j])
  }

  ghost predicate Agrees(st: Store, m: seq<byte>) {
    && D.Inv(st.disk) && Inv(st.heap) && Holds(st.heap, m) && |m| == 0x1_0000_0000
    && AllHeld(st, m)
  }

  /** p is the payload of a file in use. */
  ghost predicate IsData(st: Store, p: nat)
    requires |st.data| == |st.disk.files|
  {
    p != 0 && exists i :: 0 <= i < |st.data| && st.disk.files[i].inUse && st.data[i] == p
  }

  // ---------------------------------------------------------------- ramdisk_write

  /** What the kmalloc of a growing write gave. */
  function Given(heap: State, m1: seq<byte>, cap: u32): D.Allocation {
    var r := Malloc(heap, cap).1;
    if r == 0 || r + cap > |m1| then D.NoMemory else D.Bytes(m1[r..r + cap])
  }

  /** The buffer of file i as it is before the data goes in: with m1 after kmalloc and m2 after the copy,
      the new payload holds the content and the old one is freed. */
  ghost predicate Regrown(heap: State, m: seq<byte>, m1: seq<byte>, m2: seq<byte>, m3: seq<byte>, p: nat, size: nat,
                          cap: u32)
  {
    && (forall n: u32 | n == cap :: Bought(heap, m, n, m1))
    && (forall n: nat | n == p :: Refilled(Malloc(heap, cap).0, m1, m2, m3, n, Malloc(heap, cap).1, size))
  }

  // The kmalloc, and the copy and kfree when there is an old buffer; the quantifiers keep them folded.
  ghost predicate Bought(heap: State, m: seq<byte>, cap: u32, m1: seq<byte>) {
    MallocStep(heap, m, cap, m1) && Malloc(heap, cap).1 != 0
  }

  ghost predicate Refilled(h1: State, m1: seq<byte>, m2: seq<byte>, m3: seq<byte>, p: nat, r: nat, size: nat) {
    if p == 0 then m3 == m1 else CopyStep(m1, m2, p, r, size) && FreeStep(h1, m2, p, m3)
  }

  function RegrownHeap(heap: State, p: nat, cap: u32): State {
    var h1 := Malloc(heap, cap).0;
    if p == 0 then h1 else Free(h1, p)
  }

  /** The bytes of a growing write are those of Regrown and of the data. */
  ghost predicate GrowWrites(st: Store, m: seq<byte>, fd: int, data: seq<byte>, st': Store, m': seq<byte>)
    requires D.Inv(st.disk) && D.IsOpen(st.disk, fd) && |st.data| == |st.disk.files|
  {
    var i, pos := st.disk.fds[fd], st.disk.positions[fd];
    var cap := D.NewCapacity(pos + |data|);
    cap < 0x8000_0000 &&
    if Malloc(st.heap, cap).1 == 0 then
      MallocStep(st.heap, m, cap, m') && st' == st.(heap := Malloc(st.heap, cap).0)
    else
      exists m1, m2, m3 :: GrowsVia(st, m, m1, m2, m3, fd, data, cap, st', m')
  }

  ghost predicate GrowsVia(st: Store, m: seq<byte>, m1: seq<byte>, m2: seq<byte>, m3: seq<byte>, fd: int,
                           data: seq<byte>, cap: u32, st': Store, m': seq<byte>)
    requires D.Inv(st.disk) && D.IsOpen(st.disk, fd) && |st.data| == |st.disk.files|
  {
    var i, pos, r := st.disk.fds[fd], st.disk.positions[fd], Malloc(st.heap, cap).1;
    && Regrown(st.heap, m, m1, m2, m3, st.data[i], st.disk.files[i].size, cap)
    && StoredAt(m3, m', r + pos, data)
    && D.Writable(st.disk, fd, data, Given(st.heap, m1, cap))
    && st' == Store(D.Write(st.disk, fd, data, Given(st.heap, m1, cap)).0, RegrownHeap(st.heap, st.data[i], cap),
                    st.data[i := r])
  }

  // ---------------------------------------------------------------- the new buffer

  /** The heap and the bytes once file data at p has moved to r. */
  ghost predicate MovedTo(heap: State, m: seq<byte>, h: State, m3: seq<byte>, p: nat, r: nat, cap: nat) {
    && Inv(h) && Holds(h, m3) && |m3| == |m|
    && r != 0 && r !in Live(heap.blocks) && r in Live(h.blocks) && cap <= Live(h.blocks)[r] && r + cap <= |m|
    && Live(h.blocks) == (Live(heap.blocks) - {p})[r := Live(h.blocks)[r]]
    && PayloadsKept(m, m3, Live(heap.blocks) - {p})
  }

  // The first buffer of a file: only the kmalloc.
  lemma {:induction false} FirstBuffer(heap: State, m: seq<byte>, m1: seq<byte>, cap: u32)
    requires Inv(heap) && Holds(heap, m) && |m| == 0x1_0000_0000 && cap < 0x8000_0000
    requires forall n: u32 | n == cap :: Bought(heap, m, n, m1)
    ensures var (h1, r) := Malloc(heap, cap); MovedTo(heap, m, h1, m1, 0, r, cap)
  {
    assert Bought(heap, m, cap, m1);
    MallocCorrect(heap, cap);
    MallocStepKeeps(heap, m, cap, m1);
    HeapEnds(Malloc(heap, cap).0);
    LiveInHeap(Malloc(heap, cap).0, Malloc(heap, cap).1);
    LiveNotNull(heap.blocks, KHEAP_START, heap.current);
    assert Live(heap.blocks) - {0} == Live(heap.blocks);
  }

  // The copy and the kfree.
  lemma {:induction false} NextBuffer(heap: State, h1: State, m: seq<byte>, m1: seq<byte>, m2: seq<byte>, m3: seq<byte>,
                                      p: nat, r: nat, size: nat, cap: nat)
    requires MovedTo(heap, m, h1, m1, 0, r, cap) && Live(heap.blocks) - {0} == Live(heap.blocks)
    requires p in Live(heap.blocks) && size <= cap && CopyStep(m1, m2, p, r, size) && FreeStep(h1, m2, p, m3)
    ensures MovedTo(heap, m, Free(h1, p), m3, p, r, cap)
    ensures PayloadsKept(m2, m3, Live(h1.blocks))
  {
    PayloadWrite(m1, m2, h1.blocks, KHEAP_START, h1.current, r, size);
    FreeStepKeeps(h1, m2, p, m3);
    FreeCorrect(h1, p);
    KeptChain(m, m1, m2, m3, Live(heap.blocks), Live(h1.blocks), p, r);
  }

  lemma KeptChain(m: seq<byte>, m1: seq<byte>, m2: seq<byte>, m3: seq<byte>, live: map<nat, nat>, live1: map<nat, nat>,
                  p: nat, r: nat)
    requires r !in live && r in live1 && live1 == live[r := live1[r]] && p in live
    requires PayloadsKept(m, m1, live) && PayloadsKept(m1, m2, live1 - {r}) && PayloadsKept(m2, m3, live1)
    ensures PayloadsKept(m, m3, live - {p}) && live1 - {p} == (live - {p})[r := live1[r]]
  {
    forall q | q in live - {p}
      ensures SameOn(m, m3, q, live[q])
    {
      assert q in live1 - {r} && q in live1;
      assert SameOn(m, m1, q, live[q]) && SameOn(m1, m2, q, live1[q]) && SameOn(m2, m3, q, live1[q]);
    }
  }

  // The bytes of the new buffer: the content, and what kmalloc left behind it.
  lemma {:induction false} CopiedBytes(m: seq<byte>, m1: seq<byte>, m2: seq<byte>, m3: seq<byte>, p: nat, r: nat,
                                       n: nat, cap: nat, content: seq<byte>)
    requires |m1| == |m| == |m2| == |m3| && r + cap <= |m| && |content| <= cap && cap <= n
    requires BytesAt(m, p, content) && SameOn(m, m1, p, |content|)
    requires CopyStep(m1, m2, p, r, |content|) && SameOn(m2, m3, r, n)
    ensures BytesAt(m3, r, D.Overwrite(m1[r..r + cap], 0, content))
  {
    var buf := D.Overwrite(m1[r..r + cap], 0, content);
    forall k | 0 <= k < cap
      ensures m3[r + k] == buf[k]
    {
      assert m3[r + k] == m2[r + k];
      if k < |content| {
        assert m2[r..r + |content|][k] == m1[p..p + |content|][k];
        assert m[p + k] == content[k];
      }
    }
  }

  lemma {:induction false} RegrownKeeps(heap: State, m: seq<byte>, m1: seq<byte>, m2: seq<byte>, m3: seq<byte>,
                                        p: nat, f: D.File, cap: u32)
    requires Inv(heap) && Holds(heap, m) && |m| == 0x1_0000_0000 && FileHeld(heap, m, f, p)
    requires f.size <= |f.buffer| <= cap < 0x8000_0000 && Regrown(heap, m, m1, m2, m3, p, f.size, cap)
    ensures var r := Malloc(heap, cap).1;
      && MovedTo(heap, m, RegrownHeap(heap, p, cap), m3, p, r, cap) && |m1| == |m|
      && BytesAt(m3, r, D.Overwrite(m1[r..r + cap], 0, D.Content(f)))
  {
    FirstBuffer(heap, m, m1, cap);
    RegrownFrom(heap, Malloc(heap, cap).0, m, m1, m2, m3, p, f, Malloc(heap, cap).1, cap);
  }

  lemma {:induction false} RegrownFrom(heap: State, h1: State, m: seq<byte>, m1: seq<byte>, m2: seq<byte>,
                                       m3: seq<byte>, p: nat, f: D.File, r: nat, cap: nat)
    requires Inv(heap) && MovedTo(heap, m, h1, m1, 0, r, cap) && FileHeld(heap, m, f, p) && f.size <= |f.buffer| <= cap
    requires forall n: nat | n == p :: Refilled(h1, m1, m2, m3, n, r, f.size)
    ensures MovedTo(heap, m, if p == 0 then h1 else Free(h1, p), m3, p, r, cap) && |m1| == |m|
    ensures BytesAt(m3, r, D.Overwrite(m1[r..r + cap], 0, D.Content(f)))
  {
    assert Refilled(h1, m1, m2, m3, p, r, f.size);
    if p == 0 {
      NothingCopied(m1, r, cap, D.Content(f));
    } else {
      BufferMoves(heap, h1, m, m1, m2, m3, p, f, r, cap);
    }
  }

  lemma {:induction false} BufferMoves(heap: State, h1: State, m: seq<byte>, m1: seq<byte>, m2: seq<byte>,
                                       m3: seq<byte>, p: nat, f: D.File, r: nat, cap: nat)
    requires Inv(heap) && MovedTo(heap, m, h1, m1, 0, r, cap) && p != 0 && FileHeld(heap, m, f, p)
    requires f.size <= |f.buffer| <= cap && CopyStep(m1, m2, p, r, f.size) && FreeStep(h1, m2, p, m3)
    ensures MovedTo(heap, m, Free(h1, p), m3, p, r, cap)
    ensures |m1| == |m| && BytesAt(m3, r, D.Overwrite(m1[r..r + cap], 0, D.Content(f)))
  {
    LiveNotNull(heap.blocks, KHEAP_START, heap.current);
    assert Live(heap.blocks) - {0} == Live(heap.blocks);
    SecondBuffer(heap, h1, m, m1, m2, m3, p, r, cap, D.Content(f));
  }

  lemma {:induction false} NothingCopied(m: seq<byte>, r: nat, cap: nat, content: seq<byte>)
    requires content == [] && r + cap <= |m|
    ensures BytesAt(m, r, D.Overwrite(m[r..r + cap], 0, content))
  {
    assert D.Overwrite(m[r..r + cap], 0, content) == m[r..r + cap];
  }

  lemma {:induction false} SecondBuffer(heap: State, h1: State, m: seq<byte>, m1: seq<byte>, m2: seq<byte>,
                                        m3: seq<byte>, p: nat, r: nat, cap: nat, content: seq<byte>)
    requires MovedTo(heap, m, h1, m1, 0, r, cap) && Live(heap.blocks) - {0} == Live(heap.blocks)
    requires p in Live(heap.blocks) && |content| <= cap && |content| <= Live(heap.blocks)[p] && BytesAt(m, p, content)
    requires CopyStep(m1, m2, p, r, |content|) && FreeStep(h1, m2, p, m3)
    ensures MovedTo(heap, m, Free(h1, p), m3, p, r, cap)
    ensures |m1| == |m| && BytesAt(m3, r, D.Overwrite(m1[r..r + cap], 0, content))
  {
    NextBuffer(heap, h1, m, m1, m2, m3, p, r, |content|, cap);
    assert SameOn(m, m1, p, Live(heap.blocks)[p]) && SameOn(m2, m3, r, Live(h1.blocks)[r]);
    CopiedBytes(m, m1, m2, m3, p, r, Live(h1.blocks)[r], cap, content);
  }

  // ---------------------------------------------------------------- the other files

  // What is held outside payload p stays held.
  lemma {:induction false} HeldElsewhere(heap: State, m: seq<byte>, h: State, m': seq<byte>, f: D.File, q: nat, p: nat)
    requires FileHeld(heap, m, f, q) && (q != 0 ==> q != p) && |m| == |m'|
    requires PayloadsKept(m, m', Live(heap.blocks) - {p})
    requires forall x | x in Live(heap.blocks) - {p} :: x in Live(h.blocks) && Live(h.blocks)[x] == Live(heap.blocks)[x]
    ensures FileHeld(h, m', f, q)
  {
    if q != 0 {
      assert q in Live(heap.blocks) - {p};
      assert SameOn(m, m', q, Live(heap.blocks)[q]);
      BytesKept(m, m', q, Live(heap.blocks)[q], f.buffer);
    }
  }

  /** One file's data, and nothing else that is in use, has changed or moved from p to r. */
  lemma {:induction false} OneChanged(st: Store, m: seq<byte>, st': Store, m': seq<byte>, i: nat)
    requires Agrees(st, m) && i < |st.data| && st.disk.files[i].inUse
    requires D.Inv(st'.disk) && Inv(st'.heap) && Holds(st'.heap, m') && |m'| == |m|
    requires |st'.disk.files| == |st.disk.files| && |st'.data| == |st.data|
    requires forall j | 0 <= j < |st.data| && j != i :: st'.data[j] == st.data[j]
    requires forall j | 0 <= j < |st.data| && j != i :: st'.disk.files[j] == st.disk.files[j]
    requires FileHeld(st'.heap, m', st'.disk.files[i], st'.data[i])
    requires var p := st.data[i];
      && PayloadsKept(m, m', Live(st.heap.blocks) - {p})
      && (forall x | x in Live(st.heap.blocks) - {p} ::
            x in Live(st'.heap.blocks) && Live(st'.heap.blocks)[x] == Live(st.heap.blocks)[x])
      && (st'.data[i] == p || st'.data[i] !in Live(st.heap.blocks))
    ensures Agrees(st', m')
  {
    var p := st.data[i];
    forall j | 0 <= j < |st.data| && j != i && st.disk.files[j].inUse
      ensures FileHeld(st'.heap, m', st'.disk.files[j], st'.data[j])
      ensures st.data[j] != 0 ==> st.data[j] != st'.data[i] && st.data[j] in Live(st.heap.blocks)
    {
      HeldElsewhere(st.heap, m, st'.heap, m', st.disk.files[j], st.data[j], p);
    }
  }

  // ---------------------------------------------------------------- a write

  /** ramdisk_write in memory, of data that ends below 2^31: it goes into the payload at hand, or into a
      larger one. */
  ghost predicate WriteStep(st: Store, m: seq<byte>, fd: int, data: seq<byte>, st': Store, m': seq<byte>)
    requires D.Inv(st.disk) && |st.data| == |st.disk.files|
  {
    if !D.IsOpen(st.disk, fd) then st' == st && m' == m
    else if st.disk.positions[fd] + |data| >= 0x8000_0000 then false
    else if D.Grows(st.disk, fd, |data|) then GrowWrites(st, m, fd, data, st', m')
    else
      && StoredAt(m, m', st.data[st.disk.fds[fd]] + st.disk.positions[fd], data)
      && st' == st.(disk := D.Write(st.disk, fd, data, D.NoMemory).0)
  }

  // The data stored into a payload large enough.
  lemma {:induction false} DataStored(heap: State, m: seq<byte>, m': seq<byte>, p: nat, pos: nat,
                                       data: seq<byte>, buf: seq<byte>)
    requires Inv(heap) && Holds(heap, m) && p in Live(heap.blocks) && |buf| <= Live(heap.blocks)[p]
    requires BytesAt(m, p, buf) && pos + |data| <= |buf| && StoredAt(m, m', p + pos, data)
    ensures Represents(m', heap.blocks) && PayloadsKept(m, m', Live(heap.blocks) - {p})
    ensures BytesAt(m', p, D.Overwrite(buf, pos, data))
  {
    PayloadWrite(m, m', heap.blocks, KHEAP_START, heap.current, p, pos + |data|);
    BytesOver(m, m', p, pos, data, buf);
  }

  lemma {:induction false} PlainWrite(st: Store, m: seq<byte>, fd: int, data: seq<byte>, st': Store, m': seq<byte>)
    requires Agrees(st, m) && D.IsOpen(st.disk, fd) && !D.Grows(st.disk, fd, |data|)
    requires WriteStep(st, m, fd, data, st', m')
    ensures Agrees(st', m') && PayloadsKept(m, m', Live(st.heap.blocks) - {st.data[st.disk.fds[fd]]})
  {
    var i, pos := st.disk.fds[fd], st.disk.positions[fd];
    var f, p := st.disk.files[i], st.data[i];
    assert D.FdFits(st.disk, fd);
    D.WriteCorrect(st.disk, fd, data, D.NoMemory);
    assert st'.disk.files[i].buffer == D.Overwrite(f.buffer, pos, data);
    if p == 0 {
      NothingStored(st.heap, m, m', pos, data);
    } else {
      DataStored(st.heap, m, m', p, pos, data, f.buffer);
    }
    OneChanged(st, m, st', m', i);
  }

  // An empty store changes nothing.
  lemma NothingStored(heap: State, m: seq<byte>, m': seq<byte>, at: nat, data: seq<byte>)
    requires data == [] && StoredAt(m, m', at, data) && Represents(m, heap.blocks)
    ensures m' == m
  {
  }

  lemma {:induction false} GrowingWrite(st: Store, m: seq<byte>, m1: seq<byte>, m2: seq<byte>, m3: seq<byte>, fd: int,
                                        data: seq<byte>, cap: u32, st': Store, m': seq<byte>)
    requires Agrees(st, m) && D.IsOpen(st.disk, fd) && D.Grows(st.disk, fd, |data|)
    requires cap == D.NewCapacity(st.disk.positions[fd] + |data|) < 0x8000_0000
    requires GrowsVia(st, m, m1, m2, m3, fd, data, cap, st', m')
    ensures Agrees(st', m') && PayloadsKept(m, m', Live(st.heap.blocks) - {st.data[st.disk.fds[fd]]})
    ensures Given(st.heap, m1, cap).Bytes?
  {
    var i, pos, r := st.disk.fds[fd], st.disk.positions[fd], Malloc(st.heap, cap).1;
    var f, p, h := st.disk.files[i], st.data[i], RegrownHeap(st.heap, st.data[i], cap);
    assert D.FdFits(st.disk, fd);
    D.CapacityCovers(pos + |data|);
    RegrownKeeps(st.heap, m, m1, m2, m3, p, f, cap);
    var got := Given(st.heap, m1, cap);
    assert got == D.Bytes(m1[r..r + cap]);
    D.WriteCorrect(st.disk, fd, data, got);
    var room := D.Overwrite(m1[r..r + cap], 0, D.Content(f));
    assert st'.disk.files[i].buffer == D.Overwrite(room, pos, data);
    DataStored(h, m3, m', r, pos, data, room);
    KeptBoth(m, m3, m', Live(st.heap.blocks), Live(h.blocks), p, r);
    OneChanged(st, m, st', m', i);
  }

  lemma KeptBoth(m: seq<byte>, m3: seq<byte>, m': seq<byte>, live: map<nat, nat>, live': map<nat, nat>, p: nat, r: nat)
    requires r !in live && r in live' && live' == (live - {p})[r := live'[r]]
    requires PayloadsKept(m, m3, live - {p}) && PayloadsKept(m3, m', live' - {r})
    ensures PayloadsKept(m, m', live - {p})
    ensures forall x | x in live - {p} :: x in live' && live'[x] == live[x]
  {
    forall q | q in live - {p}
      ensures SameOn(m, m', q, live[q])
    {
      assert q in live' - {r};
      assert SameOn(m, m3, q, live[q]) && SameOn(m3, m', q, live'[q]);
    }
  }

  // A growing write that gets no memory changes no byte.
  lemma {:induction false} NoMemoryLeft(st: Store, m: seq<byte>, cap: u32, m': seq<byte>)
    requires Agrees(st, m) && cap < 0x8000_0000 && Malloc(st.heap, cap).1 == 0 && MallocStep(st.heap, m, cap, m')
    ensures Agrees(st.(heap := Malloc(st.heap, cap).0), m') && m' == m
  {
    MallocCorrect(st.heap, cap);
    HeapEnds(Malloc(st.heap, cap).0);
  }

  lemma {:induction false} GrowRefines(st: Store, m: seq<byte>, fd: int, data: seq<byte>, st': Store, m': seq<byte>)
    returns (got: D.Allocation)
    requires Agrees(st, m) && D.IsOpen(st.disk, fd) && D.Grows(st.disk, fd, |data|)
    requires st.disk.positions[fd] + |data| < 0x8000_0000 && GrowWrites(st, m, fd, data, st', m')
    ensures Agrees(st', m') && PayloadsKept(m, m', Live(st.heap.blocks) - {st.data[st.disk.fds[fd]]})
    ensures D.Writable(st.disk, fd, data, got) && st'.disk == D.Write(st.disk, fd, data, got).0
    ensures got.NoMemory? <==> Malloc(st.heap, D.NewCapacity(st.disk.positions[fd] + |data|)).1 == 0
  {
    var cap: u32 := D.NewCapacity(st.disk.positions[fd] + |data|);
    if Malloc(st.heap, cap).1 == 0 {
      NoMemoryLeft(st, m, cap, m');
      got := D.NoMemory;
    } else {
      var m1, m2, m3 :| GrowsVia(st, m, m1, m2, m3, fd, data, cap, st', m');
      GrowingWrite(st, m, m1, m2, m3, fd, data, cap, st', m');
      got := Given(st.heap, m1, cap);
    }
  }

  /** ramdisk_write on the heap does to the files what DiskFiles.Write says, with the buffer that kmalloc
      gave or refused; the bytes go on holding every file, and no other live payload changes. */
  lemma {:induction false} WriteRefines(st: Store, m: seq<byte>, fd: int, data: seq<byte>, st': Store, m': seq<byte>)
    returns (got: D.Allocation)
    requires Agrees(st, m) && WriteStep(st, m, fd, data, st', m')
    ensures Agrees(st', m')
    ensures D.Writable(st.disk, fd, data, got) && st'.disk == D.Write(st.disk, fd, data, got).0
    ensures D.IsOpen(st.disk, fd) ==> PayloadsKept(m, m', Live(st.heap.blocks) - {st.data[st.disk.fds[fd]]})
    ensures !D.IsOpen(st.disk, fd) ==> m' == m
  {
    got := D.NoMemory;
    if D.IsOpen(st.disk, fd) {
      if D.Grows(st.disk, fd, |data|) {
        got := GrowRefines(st, m, fd, data, st', m');
      } else {
        PlainWrite(st, m, fd, data, st', m');
      }
    }
  }

  // ---------------------------------------------------------------- runs

  /** A write, an unlink, another file operation, or another client's call to the heap. */
  datatype StoreEvent =
    | WriteEv(fd: int, data: seq<byte>)
    | UnlinkEv(path: string)
    | TableEv(diskEv: D.Event)
    | HeapEv(op: Op)

  function Zeros(n: nat): seq<nat> {
    seq(n, _ => 0)
  }

  /** File operations that call neither kmalloc nor kfree: new entries have no data. */
  ghost predicate TableStep(st: Store, e: D.Event, st': Store)
    requires D.Inv(st.disk) && D.Permitted(st.disk, e)
  {
    var d := D.Step(st.disk, e);
    && !e.WriteEv? && !e.UnlinkEv? && |st.disk.files| <= |d.files|
    && st' == Store(d, st.heap, st.data + Zeros(|d.files| - |st.disk.files|))
  }

  /** unlink frees the data and gives up the entry. */
  ghost predicate UnlinkStep(st: Store, m: seq<byte>, path: string, st': Store, m': seq<byte>)
    requires |st.data| == |st.disk.files|
  {
    var i := D.Find(st.disk.files, D.SkipSlashes(path));
    if i == |st.disk.files| || st.data[i] == 0 then m' == m && st' == st.(disk := D.Unlink(st.disk, path).0)
    else
      && FreeStep(st.heap, m, st.data[i], m')
      && st' == st.(disk := D.Unlink(st.disk, path).0, heap := Free(st.heap, st.data[i]))
  }

  /** Other clients name payloads of their own; truncate and unlink stay within what TruncateCorrect and
      UnlinkCorrect ask. */
  ghost predicate EventStep(st: Store, m: seq<byte>, ev: StoreEvent, st': Store, m': seq<byte>) {
    Agrees(st, m) &&
    match ev
    case WriteEv(fd, data) => WriteStep(st, m, fd, data, st', m')
    case UnlinkEv(path) => D.Permitted(st.disk, D.UnlinkEv(path)) && UnlinkStep(st, m, path, st', m')
    case TableEv(e) => D.Permitted(st.disk, e) && TableStep(st, e, st') && m' == m
    case HeapEv(op) =>
      && Allowed(st.heap, op) && (forall p | p in Named(op) :: !IsData(st, p))
      && ByteStep(st.heap, m, op, m') && st' == st.(heap := Step(st.heap, op))
  }

  lemma {:induction false} TableKeepsInv(d: D.Disk, e: D.Event)
    requires D.Inv(d) && D.Permitted(d, e) && !e.WriteEv? && !e.UnlinkEv?
    ensures var d' := D.Step(d, e);
      && D.Inv(d') && |d.files| <= |d'.files|
      && (forall i | 0 <= i < |d.files| ::
            d'.files[i].buffer == d.files[i].buffer && d'.files[i].inUse == d.files[i].inUse)
      && (forall i | |d.files| <= i < |d'.files| :: d'.files[i].buffer == [])
  {
    match e
    case OpenEv(path, create) => D.OpenCorrect(d, path, create);
    case CloseEv(fd) => D.CloseKeepsInv(d, fd);
    case ReadEv(fd, n) => D.ReadCorrect(d, fd, n);
    case SeekEv(fd, offset, whence) => D.SeekCorrect(d, fd, offset, whence);
    case TruncateEv(fd, size) => if D.IsOpen(d, fd) { D.TruncateCorrect(d, fd, size); }
    case MkdirEv(path) => D.CreateKeepsInv(d, D.SkipSlashes(path), true);
  }

  lemma {:induction false} TableKeeps(st: Store, m: seq<byte>, e: D.Event, st': Store)
    requires Agrees(st, m) && D.Permitted(st.disk, e) && TableStep(st, e, st')
    ensures Agrees(st', m)
  {
    TableKeepsInv(st.disk, e);
    forall i | 0 <= i < |st'.data| && st'.disk.files[i].inUse
      ensures FileHeld(st'.heap, m, st'.disk.files[i], st'.data[i])
    {
      if i < |st.data| {
        assert FileHeld(st.heap, m, st.disk.files[i], st.data[i]);
      }
    }
  }

  lemma {:induction false} UnlinkKeeps(st: Store, m: seq<byte>, path: string, st': Store, m': seq<byte>)
    requires Agrees(st, m) && D.Permitted(st.disk, D.UnlinkEv(path)) && UnlinkStep(st, m, path, st', m')
    ensures Agrees(st', m')
  {
    var i := D.Find(st.disk.files, D.SkipSlashes(path));
    if i < |st.disk.files| {
      D.UnlinkCorrect(st.disk, path);
      var p := st.data[i];
      if p != 0 {
        assert FileHeld(st.heap, m, st.disk.files[i], p);
        FreeStepKeeps(st.heap, m, p, m');
        FreeCorrect(st.heap, p);
      }
      forall j | 0 <= j < |st.data| && j != i && st.disk.files[j].inUse
        ensures FileHeld(st'.heap, m', st.disk.files[j], st.data[j])
      {
        assert FileHeld(st.heap, m, st.disk.files[j], st.data[j]);
        if p != 0 {
          HeldElsewhere(st.heap, m, st'.heap, m', st.disk.files[j], st.data[j], p);
        }
      }
    }
  }

  lemma {:induction false} HeapKeeps(st: Store, m: seq<byte>, op: Op, st': Store, m': seq<byte>)
    requires Agrees(st, m) && EventStep(st, m, HeapEv(op), st', m')
    ensures Agrees(st', m')
  {
    StepHolds(st.heap, m, op, m');
    ByteStepKeeps(st.heap, m, op, m');
    forall i | 0 <= i < |st.data| && st.disk.files[i].inUse
      ensures FileHeld(st'.heap, m', st.disk.files[i], st.data[i])
    {
      HeldThrough(st.heap, m, op, m', st.disk.files[i], st.data[i]);
    }
  }

  lemma {:induction false} HeldThrough(heap: State, m: seq<byte>, op: Op, m': seq<byte>, f: D.File, p: nat)
    requires Inv(heap) && Allowed(heap, op) && FileHeld(heap, m, f, p) && (p != 0 ==> p !in Named(op))
    requires PayloadsKept(m, m', Live(heap.blocks) - Named(op))
    ensures FileHeld(Step(heap, op), m', f, p)
  {
    if p != 0 {
      StaysLive(heap, op, p);
      assert p in Live(heap.blocks) - Named(op);
      assert SameOn(m, m', p, Live(heap.blocks)[p]);
      BytesKept(m, m', p, Live(heap.blocks)[p], f.buffer);
    }
  }

  lemma {:induction false} EventKeeps(st: Store, m: seq<byte>, ev: StoreEvent, st': Store, m': seq<byte>)
    requires EventStep(st, m, ev, st', m')
    ensures Agrees(st', m')
  {
    match ev
    case WriteEv(fd, data) => var got := WriteRefines(st, m, fd, data, st', m');
    case UnlinkEv(path) => UnlinkKeeps(st, m, path, st', m');
    case TableEv(e) => TableKeeps(st, m, e, st');
    case HeapEv(op) => HeapKeeps(st, m, op, st', m');
  }

  /** Each event's writes lead from one image to the next. */
  ghost predicate StoreRun(sts: seq<Store>, ms: seq<seq<byte>>, evs: seq<StoreEvent>) {
    && |sts| == |ms| == |evs| + 1
    && forall k :: 0 <= k < |evs| ==> Happens(sts[k], ms[k], evs[k], sts[k + 1], ms[k + 1])
  }

  /** EventStep; the quantifier keeps it folded. */
  ghost predicate Happens(st: Store, m: seq<byte>, ev: StoreEvent, st': Store, m': seq<byte>) {
    forall e | e == ev :: EventStep(st, m, e, st', m')
  }

  /** Whether an event writes, cuts or removes file i. */
  ghost predicate Touches(d: D.Disk, ev: StoreEvent, i: nat) {
    match ev
    case WriteEv(fd, _) => D.IsOpen(d, fd) && d.fds[fd] == i
    case UnlinkEv(path) => D.Find(d.files, D.SkipSlashes(path)) == i
    case TableEv(e) => e.TruncateEv? && D.IsOpen(d, e.tfd) && d.fds[e.tfd] == i
    case HeapEv(_) => false
  }

  lemma {:induction false} EventKeepsFile(st: Store, m: seq<byte>, ev: StoreEvent, st': Store, m': seq<byte>, i: nat)
    requires EventStep(st, m, ev, st', m') && i < |st.disk.files| && !Touches(st.disk, ev, i)
    ensures i < |st'.disk.files| == |st'.data| && st'.data[i] == st.data[i]
    ensures st'.disk.files[i].inUse == st.disk.files[i].inUse
    ensures st'.disk.files[i].buffer == st.disk.files[i].buffer && st'.disk.files[i].size == st.disk.files[i].size
  {
    EventKeeps(st, m, ev, st', m');
    match ev
    case WriteEv(fd, data) => WriteKeepsFile(st, m, fd, data, st', m', i);
    case UnlinkEv(path) =>
    case TableEv(e) => D.StepKeepsInv(st.disk, e, i); TableKeepsInv(st.disk, e);
    case HeapEv(op) =>
  }

  lemma {:induction false} WriteKeepsFile(st: Store, m: seq<byte>, fd: int, data: seq<byte>, st': Store, m': seq<byte>,
                                          i: nat)
    requires Agrees(st, m) && WriteStep(st, m, fd, data, st', m') && i < |st.disk.files|
    requires D.IsOpen(st.disk, fd) ==> st.disk.fds[fd] != i
    ensures i < |st'.disk.files| && i < |st'.data| && st'.data[i] == st.data[i] && st'.disk.files[i] == st.disk.files[i]
  {
    if D.IsOpen(st.disk, fd) {
      var got := WriteRefines(st, m, fd, data, st', m');
      D.WriteCorrect(st.disk, fd, data, got);
    }
  }

  /** Before the first file: empty tables over an empty heap. */
  lemma {:induction false} BootAgrees(f: Pmm.Frames, m: seq<byte>)
    requires Inv(Empty(f)) && |m| == 0x1_0000_0000
    ensures Agrees(Store(D.Disk([], seq(64, _ => -1), seq(64, _ => 0)), Empty(f), []), m)
  {
    assert Represents(m, []);
  }

  /** In every run of file operations and other clients' heap calls the heap stays sound and goes on
      holding every file; a file in use that no event writes, cuts or removes keeps its content, byte for
      byte, in the same payload, through the kmallocs, copies and kfrees of the others. */
  lemma {:induction false} RunKeepsFiles(sts: seq<Store>, ms: seq<seq<byte>>, evs: seq<StoreEvent>, i: nat)
    requires StoreRun(sts, ms, evs) && Agrees(sts[0], ms[0])
    requires i < |sts[0].disk.files| && sts[0].disk.files[i].inUse
    requires forall k :: 0 <= k < |evs| ==> !Touches(sts[k].disk, evs[k], i)
    ensures var st, m, n := sts[0], ms[0], |evs|;
      && Agrees(sts[n], ms[n]) && i < |sts[n].disk.files| && st.disk.files[i].size <= |st.disk.files[i].buffer|
      && sts[n].disk.files[i].size == st.disk.files[i].size && sts[n].data[i] == st.data[i]
      && (st.data[i] != 0 ==> BytesAt(ms[n], st.data[i], D.Content(st.disk.files[i])))
  {
    RunStays(sts, ms, evs, i);
    ContentHeld(sts[|evs|], ms[|evs|], i);
  }

  /** File i is in both, with the same buffer at the same place. */
  ghost predicate SameFile(st: Store, st': Store, i: nat) {
    && i < |st.disk.files| && i < |st'.disk.files| && i < |st.data| && i < |st'.data|
    && st'.data[i] == st.data[i] && st'.disk.files[i].inUse == st.disk.files[i].inUse
    && st'.disk.files[i].buffer == st.disk.files[i].buffer && st'.disk.files[i].size == st.disk.files[i].size
  }

  lemma {:induction false} ContentHeld(st: Store, m: seq<byte>, i: nat)
    requires Agrees(st, m) && i < |st.disk.files| && st.disk.files[i].inUse
    ensures var f := st.disk.files[i];
      f.size <= |f.buffer| && i < |st.data| && (st.data[i] != 0 ==> BytesAt(m, st.data[i], D.Content(f)))
  {
    assert FileHeld(st.heap, m, st.disk.files[i], st.data[i]);
  }

  lemma {:induction false} OneEvent(st: Store, m: seq<byte>, ev: StoreEvent, st': Store, m': seq<byte>, i: nat)
    requires Happens(st, m, ev, st', m') && i < |st.disk.files| && !Touches(st.disk, ev, i)
    ensures Agrees(st', m') && SameFile(st, st', i)
  {
    assert EventStep(st, m, ev, st', m');
    EventKeeps(st, m, ev, st', m');
    EventKeepsFile(st, m, ev, st', m', i);
  }

  lemma {:induction false} RunStays(sts: seq<Store>, ms: seq<seq<byte>>, evs: seq<StoreEvent>, i: nat)
    requires StoreRun(sts, ms, evs) && Agrees(sts[0], ms[0])
    requires i < |sts[0].disk.files| && forall k :: 0 <= k < |evs| ==> !Touches(sts[k].disk, evs[k], i)
    ensures Agrees(sts[|evs|], ms[|evs|]) && SameFile(sts[0], sts[|evs|], i)
    decreases |evs|
  {
    if evs != [] {
      assert !Touches(sts[0].disk, evs[0], i);
      OneEvent(sts[0], ms[0], evs[0], sts[1], ms[1], i);
      assert forall k :: 0 <= k < |evs[1..]| ==>
        evs[1..][k] == evs[k + 1] && sts[1..][k] == sts[k + 1] && ms[1..][k] == ms[k + 1];
      RunStays(sts[1..], ms[1..], evs[1..], i);
    }
  }
}
