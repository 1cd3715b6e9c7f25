/** The bytes under the kernel heap: little-endian header fields in memory, and what writing a
    header does to every other header and payload. */
module HeapBytes {
  import opened Machine
  import opened BlockList

  function Load32(m: seq<byte>, a: nat): u32
    requires a + 4 <= |m|
  {
    m[a] as int + 0x100 * (m[a + 1] as int) + 0x1_0000 * (m[a + 2] as int) + 0x100_0000 * (m[a + 3] as int)
  }

  function Store32(m: seq<byte>, a: nat, v: u32): (r: seq<byte>)
    requires a + 4 <= |m|
    ensures |r| == |m|
  {
    var v1 := v / 0x100;
    var v2 := v1 / 0x100;
    m[a := v % 0x100][a + 1 := v1 % 0x100][a + 2 := v2 % 0x100][a + 3 := v2 / 0x100]
  }

  lemma StoreThenLoad(m: seq<byte>, a: nat, v: u32)
    requires a + 4 <= |m|
    ensures Load32(Store32(m, a, v), a) == v
  {
  }

  /** m' differs from m inside [lo, hi) at most. */
  ghost predicate Changed(m: seq<byte>, m': seq<byte>, lo: nat, hi: nat) {
    |m| == |m'| && forall x :: 0 <= x < |m| && !(lo <= x < hi) ==> m'[x] == m[x]
  }

  ghost predicate HeaderAt(m: seq<byte>, a: nat, size: nat, free: bool, next: nat) {
    && a + 12 <= |m|
    && Load32(m, a) == size
    && m[a + 4] == (if free then 1 else 0)
    && Load32(m, a + 8) == next
  }

  ghost predicate Wrote(m: seq<byte>, m': seq<byte>, a: nat, size: nat, free: bool, next: nat) {
    Changed(m, m', a, a + 12) && HeaderAt(m', a, size, free, next)
  }

  lemma HeaderKept(m: seq<byte>, m': seq<byte>, lo: nat, hi: nat, a: nat, size: nat, free: bool, next: nat)
    requires Changed(m, m', lo, hi) && HeaderAt(m, a, size, free, next)
    requires a + 12 <= lo || hi <= a
    ensures HeaderAt(m', a, size, free, next)
  {
  }

  // Two writes of one header are one.
  lemma WroteTwice(m: seq<byte>, m': seq<byte>, m'': seq<byte>, a: nat, size: nat, free: bool, next: nat)
    requires Changed(m, m', a, a + 12) && Wrote(m', m'', a, size, free, next)
    ensures Wrote(m, m'', a, size, free, next)
  {
  }

  function AddrAt(bs: seq<Block>, i: nat): nat {
    if i < |bs| then bs[i].addr else 0
  }

  function Flag(free: bool): byte {
    if free then 1 else 0
  }

  /** The header of block i says its size, whether it is free, and where the next block is. */
  ghost predicate Spells(m: seq<byte>, bs: seq<Block>, i: nat)
    requires i < |bs|
  {
    HeaderAt(m, bs[i].addr, bs[i].size, bs[i].free, AddrAt(bs, i + 1))
  }

  /** The headers in memory spell out the block list. */
  ghost predicate Represents(m: seq<byte>, bs: seq<Block>) {
    forall i: nat :: i < |bs| ==> Spells(m, bs, i)
  }

  /** Every byte of every payload in `live` is the same. */
  ghost predicate PayloadsKept(m: seq<byte>, m': seq<byte>, live: map<nat, nat>) {
    |m| == |m'| && forall p | p in live :: SameOn(m, m', p, live[p])
  }

  ghost predicate SameOn(m: seq<byte>, m': seq<byte>, at: nat, n: nat) {
    forall x | at <= x < at + n && x < |m| && x < |m'| :: m'[x] == m[x]
  }

  // ---------------------------------------------------------------- single headers

  // A header filled in field by field, whatever the bytes were.
  lemma Filled(m: seq<byte>, a: nat, size: u32, free: bool, next: u32)
    requires a + 12 <= |m|
    ensures Wrote(m, Store32(Store32(m, a, size)[a + 4 := Flag(free)], a + 8, next), a, size, free, next)
  {
    var m1 := Store32(m, a, size)[a + 4 := Flag(free)];
    StoreThenLoad(m, a, size);
    StoreThenLoad(m1, a + 8, next);
  }

  lemma Flagged(m: seq<byte>, a: nat, size: nat, was: bool, free: bool, next: nat)
    requires HeaderAt(m, a, size, was, next)
    ensures Wrote(m, m[a + 4 := Flag(free)], a, size, free, next)
  {
  }

  lemma Sized(m: seq<byte>, a: nat, was: nat, size: u32, free: bool, next: nat)
    requires HeaderAt(m, a, was, free, next)
    ensures Wrote(m, Store32(m, a, size), a, size, free, next)
  {
    StoreThenLoad(m, a, size);
  }

  lemma Linked(m: seq<byte>, a: nat, size: nat, free: bool, was: nat, next: u32)
    requires HeaderAt(m, a, size, free, was)
    ensures Wrote(m, Store32(m, a + 8, next), a, size, free, next)
  {
    StoreThenLoad(m, a + 8, next);
  }

  // ---------------------------------------------------------------- block lists

  /** The bytes after kmalloc split block k, or only marked it. */
  ghost predicate PlaceWrites(m: seq<byte>, m1: seq<byte>, m2: seq<byte>, bs: seq<Block>, k: nat, size: nat)
    requires k < |bs|
  {
    var b := bs[k];
    if Splits(b, size) then
      && Wrote(m, m1, b.addr + 12 + size, b.size - size - 12, true, AddrAt(bs, k + 1))
      && Wrote(m1, m2, b.addr, size, false, b.addr + 12 + size)
    else Wrote(m, m2, b.addr, b.size, false, AddrAt(bs, k + 1))
  }

  // Where each block of the new list comes from.
  lemma PlaceIndex(bs: seq<Block>, k: nat, size: nat, i: nat)
    requires k < |bs| && size <= bs[k].size && i < |bs| && i != k
    ensures var r := Place(bs, k, size); var j := if Splits(bs[k], size) && i > k then i + 1 else i;
      && |r| == (if Splits(bs[k], size) then |bs| + 1 else |bs|)
      && r[j] == bs[i] && AddrAt(r, j + 1) == AddrAt(bs, i + 1)
  {
  }

  lemma PlaceRepresents(m: seq<byte>, m1: seq<byte>, m2: seq<byte>, bs: seq<Block>,
                        start: nat, end: nat, k: nat, size: nat)
    requires Tiles(bs, start, end) && Represents(m, bs)
    requires k < |bs| && size <= bs[k].size
    requires PlaceWrites(m, m1, m2, bs, k, size)
    ensures Represents(m2, Place(bs, k, size))
  {
    var b := bs[k];
    var r := Place(bs, k, size);
    var extra := if Splits(b, size) then 1 else 0;
    if extra == 1 {
      HeaderKept(m1, m2, b.addr, b.addr + 12, r[k + 1].addr, r[k + 1].size, true, AddrAt(bs, k + 1));
      assert AddrAt(r, k + 2) == AddrAt(bs, k + 1);
    } else {
      assert AddrAt(r, k + 1) == AddrAt(bs, k + 1);
    }
    forall i: nat | i < |r| && i != k && i != k + extra
      ensures Spells(m2, r, i)
    {
      var j := if i > k then i - extra else i;
      PlaceIndex(bs, k, size, j);
      KeptAcrossPlace(m, m1, m2, bs, start, end, k, size, j);
    }
  }

  lemma KeptAcrossPlace(m: seq<byte>, m1: seq<byte>, m2: seq<byte>, bs: seq<Block>,
                        start: nat, end: nat, k: nat, size: nat, i: nat)
    requires Tiles(bs, start, end) && Represents(m, bs)
    requires k < |bs| && size <= bs[k].size && i < |bs| && i != k
    requires PlaceWrites(m, m1, m2, bs, k, size)
    ensures Spells(m2, bs, i)
  {
    assert Spells(m, bs, i);
    TilesApart(bs, start, end, i, k);
    var b := bs[k];
    if Splits(b, size) {
      HeaderKept(m, m1, b.addr + 12 + size, b.addr + 24 + size, bs[i].addr, bs[i].size, bs[i].free, AddrAt(bs, i + 1));
      HeaderKept(m1, m2, b.addr, b.addr + 12, bs[i].addr, bs[i].size, bs[i].free, AddrAt(bs, i + 1));
    } else {
      HeaderKept(m, m2, b.addr, b.addr + 12, bs[i].addr, bs[i].size, bs[i].free, AddrAt(bs, i + 1));
    }
  }

  lemma TilesApart(bs: seq<Block>, start: nat, end: nat, i: nat, k: nat)
    requires Tiles(bs, start, end) && i < |bs| && k < |bs| && i != k
    ensures bs[i].End() <= bs[k].addr || bs[k].End() <= bs[i].addr
  {
    if i < k {
      TilesOrdered(bs, start, end, i, k);
    } else {
      TilesOrdered(bs, start, end, k, i);
    }
  }

  // A live payload lies outside every header, and outside every free block.
  lemma {:induction false} LiveOutside(bs: seq<Block>, start: nat, end: nat, p: nat, k: nat)
    requires Tiles(bs, start, end) && p in Live(bs) && k < |bs|
    ensures bs[k].addr + 12 <= p || p + Live(bs)[p] <= bs[k].addr
    ensures bs[k].free ==> bs[k].End() <= p || p + Live(bs)[p] <= bs[k].addr
  {
    LiveIs(bs, start, end, p);
    var i :| 0 <= i < |bs| && !bs[i].free && bs[i].Payload() == p;
    if i != k {
      TilesApart(bs, start, end, i, k);
    }
  }

  /** Splitting and marking a free block touches no live payload. */
  lemma {:induction false} PlaceKeepsPayloads(m: seq<byte>, m1: seq<byte>, m2: seq<byte>, bs: seq<Block>,
                                              start: nat, end: nat, k: nat, size: nat)
    requires Tiles(bs, start, end) && k < |bs| && bs[k].free && size <= bs[k].size
    requires PlaceWrites(m, m1, m2, bs, k, size)
    ensures PayloadsKept(m, m2, Live(bs))
  {
    forall p, x | p in Live(bs) && p <= x < p + Live(bs)[p] && x < |m|
      ensures m2[x] == m[x]
    {
      LiveOutside(bs, start, end, p, k);
    }
  }

  /** Freeing block k rewrites its header: marked, and covering the successor it absorbs. */
  ghost predicate ReleaseWrites(m: seq<byte>, m': seq<byte>, bs: seq<Block>, k: nat)
    requires k < |bs|
  {
    var b := bs[k];
    if k + 1 < |bs| && bs[k + 1].free
    then Wrote(m, m', b.addr, b.size + 12 + bs[k + 1].size, true, AddrAt(bs, k + 2))
    else Wrote(m, m', b.addr, b.size, true, AddrAt(bs, k + 1))
  }

  lemma ReleaseIndex(bs: seq<Block>, k: nat, i: nat)
    requires k < |bs| && i < |Release(bs, k)| && i != k
    ensures var r := Release(bs, k); var j := if i > k && |r| < |bs| then i + 1 else i;
      j < |bs| && j != k && r[i] == bs[j] && AddrAt(r, i + 1) == AddrAt(bs, j + 1)
  {
  }

  lemma ReleaseRepresents(m: seq<byte>, m': seq<byte>, bs: seq<Block>, start: nat, end: nat, k: nat)
    requires Tiles(bs, start, end) && Represents(m, bs) && k < |bs|
    requires ReleaseWrites(m, m', bs, k)
    ensures Represents(m', Release(bs, k))
  {
    var r := Release(bs, k);
    assert Spells(m', r, k);
    forall i: nat | i < |r| && i != k
      ensures Spells(m', r, i)
    {
      var j := if i > k && |r| < |bs| then i + 1 else i;
      ReleaseIndex(bs, k, i);
      assert Spells(m, bs, j);
      TilesApart(bs, start, end, j, k);
      HeaderKept(m, m', bs[k].addr, bs[k].addr + 12, bs[j].addr, bs[j].size, bs[j].free, AddrAt(bs, j + 1));
    }
  }

  lemma {:induction false} ReleaseKeepsPayloads(m: seq<byte>, m': seq<byte>, bs: seq<Block>,
                                                start: nat, end: nat, k: nat)
    requires Tiles(bs, start, end) && k < |bs|
    requires ReleaseWrites(m, m', bs, k)
    ensures PayloadsKept(m, m', Live(bs))
  {
    forall p, x | p in Live(bs) && p <= x < p + Live(bs)[p] && x < |m|
      ensures m'[x] == m[x]
    {
      LiveOutside(bs, start, end, p, k);
    }
  }

  // A header written past the last block leaves the list as it was.
  lemma BeyondRepresents(m: seq<byte>, m1: seq<byte>, bs: seq<Block>, start: nat, end: nat)
    requires Tiles(bs, start, end) && Represents(m, bs) && Changed(m, m1, end, end + 12)
    ensures Represents(m1, bs)
  {
    forall i: nat | i < |bs|
      ensures Spells(m1, bs, i)
    {
      assert Spells(m, bs, i);
      TilesBounds(bs, start, end, i);
      HeaderKept(m, m1, end, end + 12, bs[i].addr, bs[i].size, bs[i].free, AddrAt(bs, i + 1));
    }
  }

  /** The bytes after a block of `pages` pages was appended at the end of the heap: its own header,
      and a new link in the last one. */
  ghost predicate ExtendWrites(m: seq<byte>, m1: seq<byte>, m2: seq<byte>, bs: seq<Block>, end: nat, pages: nat) {
    && Wrote(m, m1, end, Wrap(pages * 4096 - 12), true, 0)
    && (if bs == [] then m2 == m1 else var b := bs[|bs| - 1]; Wrote(m1, m2, b.addr, b.size, b.free, end))
  }

  lemma ExtendRepresents(m: seq<byte>, m1: seq<byte>, m2: seq<byte>, bs: seq<Block>, start: nat, end: nat, pages: nat)
    requires Tiles(bs, start, end) && Represents(m, bs) && ExtendWrites(m, m1, m2, bs, end, pages)
    ensures Represents(m2, Extend(bs, end, pages))
  {
    var r := Extend(bs, end, pages);
    var n := |bs|;
    forall i: nat | i < |r|
      ensures Spells(m2, r, i)
    {
      if i < n {
        assert Spells(m, bs, i);
      }
      if i < n - 1 {
        TilesOrdered(bs, start, end, i, n - 1);
        HeaderKept(m, m1, end, end + 12, bs[i].addr, bs[i].size, bs[i].free, AddrAt(bs, i + 1));
        HeaderKept(m1, m2, bs[n - 1].addr, bs[n - 1].addr + 12, bs[i].addr, bs[i].size, bs[i].free, AddrAt(bs, i + 1));
      } else if i == n && n > 0 {
        HeaderKept(m1, m2, bs[n - 1].addr, bs[n - 1].addr + 12, end, r[n].size, true, 0);
      }
    }
  }

  lemma {:induction false} ExtendKeepsPayloads(m: seq<byte>, m1: seq<byte>, m2: seq<byte>, bs: seq<Block>,
                                               start: nat, end: nat, pages: nat)
    requires Tiles(bs, start, end) && ExtendWrites(m, m1, m2, bs, end, pages)
    ensures PayloadsKept(m, m2, Live(bs))
  {
    forall p, x | p in Live(bs) && p <= x < p + Live(bs)[p] && x < |m|
      ensures m2[x] == m[x]
    {
      LiveIs(bs, start, end, p);
      var i :| 0 <= i < |bs| && !bs[i].free && bs[i].Payload() == p;
      TilesBounds(bs, start, end, i);
      LiveOutside(bs, start, end, p, |bs| - 1);
    }
  }

  /** A client writing inside its own payload disturbs no header and no other payload. */
  lemma {:induction false} PayloadWrite(m: seq<byte>, m': seq<byte>, bs: seq<Block>,
                                        start: nat, end: nat, q: nat, n: nat)
    requires Tiles(bs, start, end) && Represents(m, bs)
    requires q in Live(bs) && n <= Live(bs)[q] && Changed(m, m', q, q + n)
    ensures Represents(m', bs)
    ensures PayloadsKept(m, m', Live(bs) - {q})
  {
    forall i: nat | i < |bs|
      ensures Spells(m', bs, i)
    {
      assert Spells(m, bs, i);
      LiveOutside(bs, start, end, q, i);
      HeaderKept(m, m', q, q + n, bs[i].addr, bs[i].size, bs[i].free, AddrAt(bs, i + 1));
    }
    forall p, x | p in Live(bs) - {q} && p <= x < p + Live(bs)[p] && x < |m|
      ensures m'[x] == m[x]
    {
      if p < q {
        LiveDisjoint(bs, start, end, p, q);
      } else {
        LiveDisjoint(bs, start, end, q, p);
      }
    }
  }

  // ---------------------------------------------------------------- the split, store by store

  /** The bytes after a split, each field stored in the code's order: the block at blk keeps `size`
      bytes, the new header at `split` gets the rest. */
  function SplitFields(m: seq<byte>, blk: nat, size: u32, split: u32, rest: u32): (r: seq<byte>)
    requires blk + 12 <= |m| && split + 12 <= |m|
    ensures |r| == |m|
  {
    var m1 := Store32(m, split, rest)[split + 4 := 1];
    var m2 := Store32(m1, split + 8, Load32(m1, blk + 8));
    Store32(Store32(m2, blk + 8, split), blk, size)
  }

  /** And with the block marked as handed out. */
  function SplitBytes(m: seq<byte>, blk: nat, size: u32, split: u32, rest: u32): (r: seq<byte>)
    requires blk + 12 <= |m| && split + 12 <= |m|
    ensures |r| == |m|
  {
    SplitFields(m, blk, size, split, rest)[blk + 4 := 0]
  }

  /** The bytes after the second half of kmalloc on the block at blk, every sum in 32 bits. */
  function Carved(m: seq<byte>, blk: nat, size: u32): (r: seq<byte>)
    requires blk + 12 <= |m| && Wrap(blk + 12 + size) + 12 <= |m|
    ensures |r| == |m|
  {
    if Load32(m, blk) > Wrap(size + 28)
    then SplitBytes(m, blk, size, Wrap(blk + 12 + size), Wrap(Load32(m, blk) - size - 12))
    else m[blk + 4 := 0]
  }

  // The new header alone.
  function SplitOff(m: seq<byte>, split: nat, rest: u32, next: u32): (r: seq<byte>)
    requires split + 12 <= |m|
    ensures |r| == |m|
  {
    Store32(Store32(m, split, rest)[split + 4 := 1], split + 8, next)
  }

  // The two stores in front of it leave the link of a separate block alone.
  lemma NextKept(m: seq<byte>, split: nat, rest: u32, blk: nat)
    requires (blk + 12 <= split || split + 12 <= blk) && split + 12 <= |m| && blk + 12 <= |m|
    ensures Load32(Store32(m, split, rest)[split + 4 := 1], blk + 8) == Load32(m, blk + 8)
  {
  }

  // The stores after the new header change the block's own header only.
  lemma SplitIs(m: seq<byte>, blk: nat, size: u32, split: u32, rest: u32)
    requires (blk + 12 <= split || split + 12 <= blk) && split + 12 <= |m| && blk + 12 <= |m|
    ensures var next := Load32(m, blk + 8); var m1 := SplitOff(m, split, rest, next);
      && Wrote(m, m1, split, rest, true, next)
      && SplitBytes(m, blk, size, split, rest) == Store32(Store32(m1, blk + 8, split), blk, size)[blk + 4 := 0]
      && Changed(m1, SplitBytes(m, blk, size, split, rest), blk, blk + 12)
  {
    NextKept(m, split, rest, blk);
    Filled(m, split, rest, true, Load32(m, blk + 8));
  }

  lemma SplitStores(m: seq<byte>, blk: nat, was: nat, size: u32, split: u32, rest: u32, next: u32)
    requires HeaderAt(m, blk, was, true, next) && blk + 12 <= split && split + 12 <= |m|
    ensures var m1 := SplitOff(m, split, rest, next);
      && Wrote(m, m1, split, rest, true, next)
      && Wrote(m1, SplitBytes(m, blk, size, split, rest), blk, size, false, split)
  {
    SplitIs(m, blk, size, split, rest);
    var m1 := SplitOff(m, split, rest, next);
    HeaderKept(m, m1, split, split + 12, blk, was, true, next);
    var m2 := Store32(m1, blk + 8, split);
    Linked(m1, blk, was, true, next, split);
    var m3 := Store32(m2, blk, size);
    Sized(m2, blk, was, size, true, split);
    Flagged(m3, blk, size, true, false, split);
    WroteTwice(m1, m2, m3, blk, size, true, split);
    WroteTwice(m1, m3, m3[blk + 4 := 0], blk, size, false, split);
  }

  // In the heap none of the code's sums wraps.
  lemma SumsFit(blk: nat, was: nat, size: u32)
    requires blk + 12 + was <= 0x8000_0000 && 28 <= blk && size <= was
    ensures Wrap(size + 28) == size + 28 && Wrap(blk + 12 + size) == blk + 12 + size
    ensures size + 12 <= was ==> Wrap(was - size - 12) == was - size - 12
  {
  }

  lemma CarvedIs(m: seq<byte>, blk: nat, was: u32, size: u32)
    requires blk + 12 + was <= 0x8000_0000 && 28 <= blk && size <= was
    requires |m| == 0x1_0000_0000 && Load32(m, blk) == was
    ensures Wrap(blk + 12 + size) + 12 <= |m|
    ensures was > size + 28 ==> Carved(m, blk, size) == SplitBytes(m, blk, size, blk + 12 + size, was - size - 12)
    ensures was <= size + 28 ==> Carved(m, blk, size) == m[blk + 4 := 0]
  {
    SumsFit(blk, was, size);
  }

  /** Inside the heap the stores are those of the exact split. */
  lemma CarvedPlaces(m: seq<byte>, bs: seq<Block>, k: nat, size: u32)
    requires k < |bs| && bs[k].free && size <= bs[k].size && 28 <= bs[k].addr && bs[k].End() <= 0x8000_0000
    requires |m| == 0x1_0000_0000 && HeaderAt(m, bs[k].addr, bs[k].size, true, AddrAt(bs, k + 1))
    ensures Wrap(bs[k].addr + 12 + size) + 12 <= |m|
    ensures PlaceStep(m, Carved(m, bs[k].addr, size), bs, k, size)
  {
    CarvedIs(m, bs[k].addr, bs[k].size, size);
    if Splits(bs[k], size) {
      SplitPlaces(m, bs, k, size);
    } else {
      MarkPlaces(m, bs, k, size);
    }
  }

  lemma MarkPlaces(m: seq<byte>, bs: seq<Block>, k: nat, size: nat)
    requires k < |bs| && !Splits(bs[k], size) && HeaderAt(m, bs[k].addr, bs[k].size, true, AddrAt(bs, k + 1))
    ensures PlaceStep(m, m[bs[k].addr + 4 := 0], bs, k, size)
  {
    Flagged(m, bs[k].addr, bs[k].size, true, false, AddrAt(bs, k + 1));
    assert PlaceWrites(m, m, m[bs[k].addr + 4 := 0], bs, k, size);
  }

  lemma SplitPlaces(m: seq<byte>, bs: seq<Block>, k: nat, size: u32)
    requires k < |bs| && Splits(bs[k], size) && bs[k].End() <= 0x8000_0000
    requires |m| == 0x1_0000_0000 && HeaderAt(m, bs[k].addr, bs[k].size, true, AddrAt(bs, k + 1))
    ensures var b := bs[k];
      PlaceStep(m, SplitBytes(m, b.addr, size, b.addr + 12 + size, b.size - size - 12), bs, k, size)
  {
    var b, next := bs[k], AddrAt(bs, k + 1);
    var split, rest := b.addr + 12 + size, b.size - size - 12;
    SplitStores(m, b.addr, b.size, size, split, rest, next);
    assert PlaceWrites(m, SplitOff(m, split, rest, next), SplitBytes(m, b.addr, size, split, rest), bs, k, size);
  }

  /** Where the sum wraps below the block, the new header lands there instead, whatever was there. */
  lemma SplitLandsBelow(m: seq<byte>, blk: nat, size: u32, split: u32, rest: u32)
    requires split + 12 <= blk && blk + 12 <= |m|
    ensures HeaderAt(SplitBytes(m, blk, size, split, rest), split, rest, true, Load32(m, blk + 8))
  {
    SplitIs(m, blk, size, split, rest);
    var next := Load32(m, blk + 8);
    var m1, m2 := SplitOff(m, split, rest, next), SplitBytes(m, blk, size, split, rest);
    HeaderKept(m1, m2, blk, blk + 12, split, rest, true, next);
  }

  // ---------------------------------------------------------------- operations on the bytes

  ghost predicate PlaceStep(m: seq<byte>, m': seq<byte>, bs: seq<Block>, k: nat, size: nat)
    requires k < |bs|
  {
    exists m1 :: PlaceWrites(m, m1, m', bs, k, size)
  }

  ghost predicate ExtendStep(m: seq<byte>, m': seq<byte>, bs: seq<Block>, end: nat, pages: nat) {
    exists m1 :: ExtendWrites(m, m1, m', bs, end, pages)
  }

  /** kmalloc writes the headers of a new block, of the last one and of a split, as far as it needs
      them, and nothing else. */
  ghost predicate MallocStep(s: State, m: seq<byte>, size: u32, m': seq<byte>) {
    var k := FirstFit(s.blocks, size);
    if Malloc(s, size).1 == 0 then m' == m
    else if k < |s.blocks| then PlaceStep(m, m', s.blocks, k, size)
    else
      var bs := Extend(s.blocks, s.current, Pages(size));
      exists m1 :: ExtendStep(m, m1, s.blocks, s.current, Pages(size)) && PlaceStep(m1, m', bs, k, size)
  }

  /** kmalloc of a request that does not fit: the same stores, wherever the wrapped sums send them. */
  ghost predicate OverrunStep(s: State, m: seq<byte>, size: u32, m': seq<byte>) {
    && Wrap(s.current + 12 + size) + 12 <= |m|
    && exists m1 :: ExtendStep(m, m1, s.blocks, s.current, Pages(size)) && CarvedAt(m1, s.current, size, m')
  }

  /** Both headers of a split of the block at blk lie in the address space. */
  predicate SplitReaches(blk: nat, size: u32) {
    blk + 12 <= 0x1_0000_0000 && Wrap(blk + 12 + size) + 12 <= 0x1_0000_0000
  }

  ghost predicate CarvedAt(m: seq<byte>, blk: nat, size: u32, m': seq<byte>) {
    blk + 12 <= |m| && Wrap(blk + 12 + size) + 12 <= |m| && m' == Carved(m, blk, size)
  }

  ghost predicate FreeStep(s: State, m: seq<byte>, p: nat, m': seq<byte>) {
    IndexOf(s.blocks, p) < |s.blocks| && ReleaseWrites(m, m', s.blocks, IndexOf(s.blocks, p))
  }

  /** n zero bytes at p, nothing else changed. */
  ghost predicate Zeroed(m: seq<byte>, m': seq<byte>, p: nat, n: nat) {
    Changed(m, m', p, p + n) && p + n <= |m| && forall x :: p <= x < p + n ==> m'[x] == 0
  }

  ghost predicate CallocStep(s: State, m: seq<byte>, total: u32, m': seq<byte>) {
    var p := Malloc(s, total).1;
    exists m1 :: MallocStep(s, m, total, m1) && (if p == 0 then m' == m1 else Zeroed(m1, m', p, total))
  }

  /** The n bytes at `from` in m are at `to` in m'. */
  ghost predicate Moved(m: seq<byte>, m': seq<byte>, from: nat, to: nat, n: nat) {
    from + n <= |m| && to + n <= |m'| && m'[to..to + n] == m[from..from + n]
  }

  /** krealloc to a larger block: kmalloc, a copy into the new payload, kfree of the old one. */
  ghost predicate MoveStep(s: State, m: seq<byte>, p: nat, size: u32, m': seq<byte>)
    requires p in Live(s.blocks)
  {
    exists m1, m2 :: MoveWrites(s, m, m1, m2, p, size, m')
  }

  ghost predicate MoveWrites(s: State, m: seq<byte>, m1: seq<byte>, m2: seq<byte>, p: nat, size: u32, m': seq<byte>)
    requires p in Live(s.blocks)
  {
    var (s', r) := Malloc(s, size);
    && MallocStep(s, m, size, m1)
    && (if r == 0 then m' == m1 else CopyStep(m1, m2, p, r, Live(s.blocks)[p]) && FreeStep(s', m2, p, m'))
  }

  ghost predicate CopyStep(m: seq<byte>, m': seq<byte>, from: nat, to: nat, n: nat) {
    Changed(m, m', to, to + n) && Moved(m, m', from, to, n)
  }

  ghost predicate ReallocStep(s: State, m: seq<byte>, p: nat, size: u32, m': seq<byte>)
    requires p == 0 || p in Live(s.blocks)
  {
    if p == 0 then MallocStep(s, m, size, m')
    else if size == 0 then FreeStep(s, m, p, m')
    else if Live(s.blocks)[p] >= size then m' == m
    else MoveStep(s, m, p, size, m')
  }

  /** What each operation writes: headers, zeroes, a copy, or a client's own bytes. */
  ghost predicate ByteStep(s: State, m: seq<byte>, op: Op, m': seq<byte>)
    requires Owned(s, op)
  {
    match op
    case MallocOp(size) => MallocStep(s, m, size, m')
    case CallocOp(count, each) => CallocStep(s, m, Wrap(count * each), m')
    case FreeOp(p) => FreeStep(s, m, p, m')
    case ReallocOp(p, size) => ReallocStep(s, m, p, size, m')
    case StoreOp(p, n) => Changed(m, m', p, p + n)
  }

  // ---------------------------------------------------------------- what the writes keep

  lemma KeptTwice(m: seq<byte>, m': seq<byte>, m'': seq<byte>, live: map<nat, nat>)
    requires PayloadsKept(m, m', live) && PayloadsKept(m', m'', live)
    ensures PayloadsKept(m, m'', live)
  {
    forall p | p in live
      ensures SameOn(m, m'', p, live[p])
    {
      assert SameOn(m, m', p, live[p]) && SameOn(m', m'', p, live[p]);
    }
  }

  lemma {:induction false} PlaceStepKeeps(m: seq<byte>, m': seq<byte>, s: State, k: nat, size: u32)
    requires Inv(s) && Represents(m, s.blocks) && k < |s.blocks| && s.blocks[k].free && size <= s.blocks[k].size
    requires PlaceStep(m, m', s.blocks, k, size)
    ensures Represents(m', Place(s.blocks, k, size)) && PayloadsKept(m, m', Live(s.blocks))
  {
    var m1 :| PlaceWrites(m, m1, m', s.blocks, k, size);
    PlaceRepresents(m, m1, m', s.blocks, KHEAP_START, s.current, k, size);
    PlaceKeepsPayloads(m, m1, m', s.blocks, KHEAP_START, s.current, k, size);
  }

  lemma {:induction false} ExtendStepKeeps(m: seq<byte>, m': seq<byte>, s: State, size: u32)
    requires Inv(s) && Represents(m, s.blocks) && ExtendStep(m, m', s.blocks, s.current, Pages(size))
    ensures Represents(m', Extend(s.blocks, s.current, Pages(size))) && PayloadsKept(m, m', Live(s.blocks))
  {
    var m1 :| ExtendWrites(m, m1, m', s.blocks, s.current, Pages(size));
    ExtendRepresents(m, m1, m', s.blocks, KHEAP_START, s.current, Pages(size));
    ExtendKeepsPayloads(m, m1, m', s.blocks, KHEAP_START, s.current, Pages(size));
  }

  /** kmalloc's writes spell the new list and touch no live payload. */
  lemma {:induction false} MallocStepKeeps(s: State, m: seq<byte>, size: u32, m': seq<byte>)
    requires Inv(s) && Fits(s, size) && Represents(m, s.blocks) && MallocStep(s, m, size, m')
    ensures Represents(m', Malloc(s, size).0.blocks) && PayloadsKept(m, m', Live(s.blocks))
  {
    MallocCorrect(s, size);
    var k := FirstFit(s.blocks, size);
    if Malloc(s, size).1 != 0 {
      if k < |s.blocks| {
        PlaceStepKeeps(m, m', s, k, size);
      } else {
        GrownStepKeeps(s, m, size, m');
      }
    }
  }

  lemma {:induction false} GrownStepKeeps(s: State, m: seq<byte>, size: u32, m': seq<byte>)
    requires Inv(s) && Fits(s, size) && Represents(m, s.blocks) && MallocStep(s, m, size, m')
    requires Malloc(s, size).1 != 0 && FirstFit(s.blocks, size) == |s.blocks|
    ensures Represents(m', Malloc(s, size).0.blocks) && PayloadsKept(m, m', Live(s.blocks))
  {
    FitsWhenGrown(s, size);
    ExpandKeepsInv(s, size);
    PagesCover(size);
    var s1 := Expand(s, size).0;
    var m1 :| ExtendStep(m, m1, s.blocks, s.current, Pages(size)) && PlaceStep(m1, m', s1.blocks, |s.blocks|, size);
    ExtendStepKeeps(m, m1, s, size);
    PlaceStepKeeps(m1, m', s1, |s.blocks|, size);
    KeptTwice(m, m1, m', Live(s.blocks));
  }

  lemma {:induction false} FreeStepKeeps(s: State, m: seq<byte>, p: nat, m': seq<byte>)
    requires Inv(s) && Represents(m, s.blocks) && FreeStep(s, m, p, m')
    ensures Represents(m', Free(s, p).blocks) && PayloadsKept(m, m', Live(s.blocks))
  {
    ReleaseRepresents(m, m', s.blocks, KHEAP_START, s.current, IndexOf(s.blocks, p));
    ReleaseKeepsPayloads(m, m', s.blocks, KHEAP_START, s.current, IndexOf(s.blocks, p));
  }

  /** kcalloc's writes do the same, and the payload is zero. */
  lemma {:induction false} CallocStepKeeps(s: State, m: seq<byte>, total: u32, m': seq<byte>)
    requires Inv(s) && Fits(s, total) && Represents(m, s.blocks) && CallocStep(s, m, total, m')
    ensures Represents(m', Malloc(s, total).0.blocks) && PayloadsKept(m, m', Live(s.blocks))
    ensures var p := Malloc(s, total).1; p != 0 ==> p + total <= |m'| && forall x :: p <= x < p + total ==> m'[x] == 0
  {
    var (s', p) := Malloc(s, total);
    var m1 :| MallocStep(s, m, total, m1) && (if p == 0 then m' == m1 else Zeroed(m1, m', p, total));
    MallocCorrect(s, total);
    MallocStepKeeps(s, m, total, m1);
    if p != 0 {
      PayloadWrite(m1, m', s'.blocks, KHEAP_START, s'.current, p, total);
      assert Live(s'.blocks) - {p as nat} == Live(s.blocks);
      KeptTwice(m, m1, m', Live(s.blocks));
    }
  }

  /** krealloc's writes keep every payload but the one moved, and its old contents are at the result. */
  lemma {:induction false} MoveStepKeeps(s: State, m: seq<byte>, p: nat, size: u32, m': seq<byte>)
    requires Inv(s) && Fits(s, size) && Represents(m, s.blocks) && p in Live(s.blocks) && Live(s.blocks)[p] < size
    requires p + Live(s.blocks)[p] <= |m| && MoveStep(s, m, p, size, m')
    ensures var (s', r) := Malloc(s, size); var n := Live(s.blocks)[p];
      if r == 0 then Represents(m', s'.blocks) && PayloadsKept(m, m', Live(s.blocks))
      else Represents(m', Free(s', p).blocks) && PayloadsKept(m, m', Live(s.blocks) - {p}) && Moved(m, m', p, r, n)
  {
    var (s', r) := Malloc(s, size);
    var n := Live(s.blocks)[p];
    var m1, m2 :| MoveWrites(s, m, m1, m2, p, size, m');
    MallocStepKeeps(s, m, size, m1);
    if r != 0 {
      MallocCorrect(s, size);
      ReallocMoves(s, p, size);
      CopyKeeps(s', Live(s.blocks), m, m1, m2, m', p, r);
    }
  }

  // The copy and the kfree, after the kmalloc that made r live beside the payloads of before.
  lemma {:induction false} CopyKeeps(s: State, live: map<nat, nat>, m: seq<byte>, m1: seq<byte>, m2: seq<byte>,
                                     m3: seq<byte>, p: nat, r: nat)
    requires Inv(s) && Represents(m1, s.blocks) && PayloadsKept(m, m1, live) && p in live && r !in live
    requires r in Live(s.blocks) && Live(s.blocks) == live[r := Live(s.blocks)[r]] && live[p] <= Live(s.blocks)[r]
    requires p + live[p] <= |m| && CopyStep(m1, m2, p, r, live[p]) && FreeStep(s, m2, p, m3)
    ensures Represents(m3, Free(s, p).blocks) && PayloadsKept(m, m3, live - {p}) && Moved(m, m3, p, r, live[p])
  {
    PayloadWrite(m1, m2, s.blocks, KHEAP_START, s.current, r, live[p]);
    assert Live(s.blocks) - {r} == live;
    FreeStepKeeps(s, m2, p, m3);
    MovedChain(m, m1, m2, m3, live, p, r, Live(s.blocks)[r]);
  }

  lemma MovedChain(m: seq<byte>, m1: seq<byte>, m2: seq<byte>, m3: seq<byte>, live: map<nat, nat>,
                   p: nat, r: nat, got: nat)
    requires p in live && r !in live && live[p] <= got && p + live[p] <= |m|
    requires PayloadsKept(m, m1, live) && PayloadsKept(m1, m2, live)
    requires Moved(m1, m2, p, r, live[p])
    requires PayloadsKept(m2, m3, live[r := got])
    ensures PayloadsKept(m, m3, live - {p}) && Moved(m, m3, p, r, live[p])
  {
    var n := live[p];
    assert SameOn(m, m1, p, n);
    assert r in live[r := got] && SameOn(m2, m3, r, live[r := got][r]);
    assert m1[p..p + n] == m[p..p + n];
    assert m3[r..r + n] == m2[r..r + n];
    forall q | q in live - {p}
      ensures SameOn(m, m3, q, live[q])
    {
      assert SameOn(m, m1, q, live[q]) && SameOn(m1, m2, q, live[q]) && SameOn(m2, m3, q, live[r := got][q]);
    }
  }

  // ---------------------------------------------------------------- runs over the bytes

  /** The payload an operation ends, moves or writes to. */
  function Named(op: Op): set<nat> {
    match op
    case MallocOp(_) => {}
    case CallocOp(_, _) => {}
    case FreeOp(p) => {p}
    case ReallocOp(p, _) => {p}
    case StoreOp(p, _) => {p}
  }

  /** The address space holds the heap. */
  ghost predicate Holds(s: State, m: seq<byte>) {
    Represents(m, s.blocks) && s.current <= |m|
  }

  /** The writes of an allowed operation spell the new block list, and touch no live payload but the
      one it names. */
  lemma {:induction false} ByteStepKeeps(s: State, m: seq<byte>, op: Op, m': seq<byte>)
    requires Inv(s) && Allowed(s, op) && Holds(s, m) && ByteStep(s, m, op, m')
    ensures Represents(m', Step(s, op).blocks) && PayloadsKept(m, m', Live(s.blocks) - Named(op))
  {
    match op
    case MallocOp(size) => MallocStepKeeps(s, m, size, m');
    case CallocOp(count, each) => CallocStepKeeps(s, m, Wrap(count * each), m');
    case FreeOp(p) => FreeStepKeeps(s, m, p, m');
    case ReallocOp(p, size) => ReallocStepKeeps(s, m, p, size, m');
    case StoreOp(p, n) => PayloadWrite(m, m', s.blocks, KHEAP_START, s.current, p, n);
  }

  lemma {:induction false} ReallocStepKeeps(s: State, m: seq<byte>, p: nat, size: u32, m': seq<byte>)
    requires Inv(s) && (p == 0 || p in Live(s.blocks)) && Fits(s, size) && Holds(s, m) && ReallocStep(s, m, p, size, m')
    ensures Represents(m', Realloc(s, p, size).0.blocks) && PayloadsKept(m, m', Live(s.blocks) - {p})
  {
    LiveNotNull(s.blocks, KHEAP_START, s.current);
    if p == 0 {
      MallocStepKeeps(s, m, size, m');
    } else if size == 0 {
      FreeStepKeeps(s, m, p, m');
    } else if Live(s.blocks)[p] < size {
      LiveInHeap(s, p);
      MoveStepKeeps(s, m, p, size, m');
    }
  }

  lemma {:induction false} LiveInHeap(s: State, p: nat)
    requires Inv(s) && p in Live(s.blocks)
    ensures KHEAP_START + 12 <= p && p + Live(s.blocks)[p] <= s.current
  {
    LiveIs(s.blocks, KHEAP_START, s.current, p);
    var i :| 0 <= i < |s.blocks| && !s.blocks[i].free && s.blocks[i].Payload() == p;
    TilesBounds(s.blocks, KHEAP_START, s.current, i);
  }

  /** The images of a run: the first one spells the heap, and each operation's writes lead to the next. */
  ghost predicate ByteRun(s: State, ms: seq<seq<byte>>, ops: seq<Op>)
    requires Disciplined(s, ops)
    decreases |ops|
  {
    |ms| == |ops| + 1 &&
    (ops == [] || (ByteStep(s, ms[0], ops[0], ms[1]) && ByteRun(Step(s, ops[0]), ms[1..], ops[1..])))
  }

  // A live payload an operation does not end or move stays live with its size.
  lemma {:induction false} StaysLive(s: State, op: Op, p: nat)
    requires Inv(s) && Allowed(s, op) && p in Live(s.blocks) && p !in Named(op)
    ensures Inv(Step(s, op)) && p in Live(Step(s, op).blocks) && Live(Step(s, op).blocks)[p] == Live(s.blocks)[p]
  {
    match op
    case MallocOp(size) => MallocCorrect(s, size);
    case CallocOp(count, each) => MallocCorrect(s, Wrap(count * each));
    case FreeOp(q) => FreeCorrect(s, q);
    case ReallocOp(q, size) => ReallocCorrect(s, q, size);
    case StoreOp(_, _) =>
  }

  lemma {:induction false} StepHolds(s: State, m: seq<byte>, op: Op, m': seq<byte>)
    requires Inv(s) && Allowed(s, op) && Holds(s, m) && ByteStep(s, m, op, m') && |m| == 0x1_0000_0000
    ensures Inv(Step(s, op)) && Holds(Step(s, op), m') && |m'| == |m|
  {
    StepKeepsInv(s, op);
    ByteStepKeeps(s, m, op, m');
    HeapEnds(Step(s, op));
  }

  /** Over every run of calls and client stores, a payload that is live at the start and that no
      operation names stays live with its size and keeps every byte, through all the header writes
      of splits, merges and growth, zeroing, moves and other clients' stores. */
  lemma {:induction false} RunKeepsBytes(s: State, ms: seq<seq<byte>>, ops: seq<Op>, p: nat)
    requires Inv(s) && Disciplined(s, ops) && ByteRun(s, ms, ops) && Holds(s, ms[0]) && |ms[0]| == 0x1_0000_0000
    requires p in Live(s.blocks) && forall op | op in ops :: p !in Named(op)
    ensures Inv(Run(s, ops)) && Holds(Run(s, ops), ms[|ops|])
    ensures p in Live(Run(s, ops).blocks) && Live(Run(s, ops).blocks)[p] == Live(s.blocks)[p]
    ensures |ms[|ops|]| == |ms[0]| && SameOn(ms[0], ms[|ops|], p, Live(s.blocks)[p])
    decreases |ops|
  {
    if ops != [] {
      StaysLive(s, ops[0], p);
      ByteStepKeeps(s, ms[0], ops[0], ms[1]);
      StepHolds(s, ms[0], ops[0], ms[1]);
      assert p in Live(s.blocks) - Named(ops[0]);
      assert SameOn(ms[0], ms[1], p, Live(s.blocks)[p]);
      RunKeepsBytes(Step(s, ops[0]), ms[1..], ops[1..], p);
    }
  }
}
