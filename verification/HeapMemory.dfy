/** The 32-bit address space as the heap code sees it: an array of bytes, read and written a
    header field at a time. */
module HeapMemory {
  import opened Machine
  import opened BlockList
  import opened HeapBytes

  class Memory {
    const bytes: array<byte>
    /** The bytes as a value. */
    ghost var image: seq<byte>

    ghost predicate Valid()
      reads this, bytes
    {
      bytes.Length == 0x1_0000_0000 && image == bytes[..]
    }

    constructor (bytes: array<byte>)
      requires bytes.Length == 0x1_0000_0000
      ensures Valid() && this.bytes == bytes
    {
      this.bytes := bytes;
      image := bytes[..];
    }

    method GetByte(a: u32) returns (v: byte)
      requires Valid()
      ensures v == image[a]
    {
      v := bytes[a];
    }

    method SetByte(a: u32, v: byte)
      requires Valid()
      modifies this, bytes
      ensures Valid() && image == old(image)[a := v]
    {
      bytes[a] := v;
      image := image[a := v];
    }

    method GetWord(a: u32) returns (v: u32)
      requires Valid()
      requires a + 4 <= |image|
      ensures v == Load32(image, a)
    {
      v := bytes[a] as int + 0x100 * (bytes[a + 1] as int) + 0x1_0000 * (bytes[a + 2] as int)
        + 0x100_0000 * (bytes[a + 3] as int);
    }

    method SetWord(a: u32, v: u32)
      requires Valid()
      requires a + 4 <= |image|
      modifies this, bytes
      ensures Valid()
      ensures image == Store32(old(image), a, v)
    {
      bytes[a] := v % 0x100;
      bytes[a + 1] := v / 0x100 % 0x100;
      bytes[a + 2] := v / 0x100 / 0x100 % 0x100;
      bytes[a + 3] := v / 0x100 / 0x100 / 0x100;
      image := Store32(image, a, v);
    }

    method SetFlag(a: u32, free: bool)
      requires Valid()
      requires a + 12 <= |image|
      modifies this, bytes
      ensures Valid()
      ensures image == old(image)[a + 4 := Flag(free)]
    {
      bytes[a + 4] := if free then 1 else 0;
      image := image[a + 4 := Flag(free)];
    }

    // A new header's three fields, in the order expand_heap and the split write them.
    method FillHeader(a: u32, size: u32, free: bool, next: u32)
      requires Valid()
      requires a + 12 <= |image| == 0x1_0000_0000
      modifies this, bytes
      ensures Valid()
      ensures Wrote(old(image), image, a, size, free, next)
    {
      Filled(image, a, size, free, next);
      SetWord(a, size);
      SetFlag(a, free);
      SetWord(a + 8, next);
    }

    // One field of the header `h` at a.
    method WriteSize(a: u32, size: u32, ghost h: Block, ghost next: nat)
      requires Valid()
      requires HeaderAt(image, a, h.size, h.free, next)
      modifies this, bytes
      ensures Valid()
      ensures Wrote(old(image), image, a, size, h.free, next)
    {
      Sized(image, a, h.size, size, h.free, next);
      SetWord(a, size);
    }

    method WriteFree(a: u32, free: bool, ghost h: Block, ghost next: nat)
      requires Valid()
      requires HeaderAt(image, a, h.size, h.free, next)
      modifies this, bytes
      ensures Valid()
      ensures Wrote(old(image), image, a, h.size, free, next)
    {
      Flagged(image, a, h.size, h.free, free, next);
      SetFlag(a, free);
    }

    method WriteNext(a: u32, next: u32, ghost h: Block, ghost was: nat)
      requires Valid()
      requires HeaderAt(image, a, h.size, h.free, was) && |image| == 0x1_0000_0000
      modifies this, bytes
      ensures Valid()
      ensures Wrote(old(image), image, a, h.size, h.free, next)
    {
      Linked(image, a, h.size, h.free, was, next);
      SetWord(a + 8, next);
    }

    // The five stores of a split, in the code's order.
    method Split(blk: u32, size: u32, split: u32, rest: u32)
      requires Valid() && blk + 12 <= |image| && split + 12 <= |image|
      modifies this, bytes
      ensures Valid() && image == SplitFields(old(image), blk, size, split, rest)
    {
      SetWord(split, rest);
      SetFlag(split, true);
      var next := GetWord(blk + 8);
      SetWord(split + 8, next);
      SetWord(blk + 8, split);
      SetWord(blk, size);
    }

    /** The second half of kmalloc: a split when the block is large enough, and the mark, with every
        sum in 32 bits. */
    method Carve(blk: u32, size: u32)
      requires Valid() && SplitReaches(blk, size)
      modifies this, bytes
      ensures Valid() && CarvedAt(old(image), blk, size, image)
    {
      var was := GetWord(blk);
      if was > Wrap(size + 28) {
        Split(blk, size, Wrap(blk + 12 + size), Wrap(was - size - 12));
      }
      SetFlag(blk, false);
    }

    // memset(a, 0, n)
    method Zero(a: u32, n: u32)
      requires Valid() && a + n <= |image|
      modifies this, bytes
      ensures Valid() && Changed(old(image), image, a, a + n)
      ensures forall x :: a <= x < a + n ==> image[x] == 0
    {
      var i: nat := 0;
      while i < n
        invariant i <= n && Valid() && Changed(old(image), image, a, a + n)
        invariant forall x :: a <= x < a + i ==> image[x] == 0
      {
        SetByte(a + i, 0);
        i := i + 1;
      }
    }

    // memcpy(dst, src, n) between separate regions
    method Copy(dst: u32, src: u32, n: u32)
      requires Valid() && dst + n <= |image| && src + n <= |image|
      requires dst + n <= src || src + n <= dst
      modifies this, bytes
      ensures Valid() && Changed(old(image), image, dst, dst + n)
      ensures image[dst..dst + n] == old(image)[src..src + n]
    {
      ghost var m := image;
      var i: nat := 0;
      while i < n
        invariant i <= n && Valid() && Copied(m, image, dst, src, i)
      {
        var b := GetByte(src + i);
        SetByte(dst + i, b);
        i := i + 1;
      }
      CopiedAll(m, image, dst, src, n);
    }
  }

  /** The first i bytes at src are also at dst, and no other byte changed. */
  ghost predicate Copied(m: seq<byte>, m': seq<byte>, dst: nat, src: nat, i: nat) {
    && Changed(m, m', dst, dst + i) && src + i <= |m| && dst + i <= |m|
    && forall x :: dst <= x < dst + i ==> m'[x] == m[src + (x - dst)]
  }

  lemma CopiedAll(m: seq<byte>, m': seq<byte>, dst: nat, src: nat, n: nat)
    requires Copied(m, m', dst, src, n) && dst + n <= |m|
    ensures Changed(m, m', dst, dst + n) && m'[dst..dst + n] == m[src..src + n]
  {
    var a, b := m'[dst..dst + n], m[src..src + n];
    forall k | 0 <= k < n
      ensures a[k] == b[k]
    {
      assert m'[dst + k] == m[src + (dst + k - dst)];
    }
  }
}
