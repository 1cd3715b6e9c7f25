/** The pipe's read and write loops (src/sys/pipe.c), run until they finish or would wait. */
module PipeCode {
  import opened Machine
  import opened PipeQueue

  /** How a call ended: with its return value, or waiting for the other side. */
  datatype Ending = Returned(value: int) | Waiting

  class KernelPipe {
    const buffer: array<byte>
    var readPos: nat
    var writePos: nat
    var count: nat
    var readers: int
    var writers: int
    var inUse: bool
    ghost var written: seq<byte>
    ghost var consumed: seq<byte>

    ghost function View(): Pipe
      reads this, buffer
    {
      Pipe(buffer[..], readPos, writePos, count, readers, writers, inUse, written, consumed)
    }

    ghost predicate Valid()
      reads this, buffer
    {
      Inv(View())
    }

    constructor ()
      ensures fresh(buffer) && Valid() && View() == CREATED
    {
      buffer := new byte[4096](_ => 0);
      readPos, writePos, count, readers, writers, inUse := 0, 0, 0, 1, 1, true;
      written, consumed := [], [];
      new;
      assert buffer[..] == CREATED.buffer;
    }

    method ReadOne() returns (b: byte)
      requires Valid() && 0 < count
      modifies this
      ensures Valid() && (View(), Outcome.Moved(b)) == ReadStep(old(View()))
      ensures b == Unread(old(View()))[0] && Unread(View()) == Unread(old(View()))[1..]
      ensures count == old(count) - 1 && written == old(written) && writers == old(writers)
    {
      ReadKeepsInv(View());
      b := buffer[readPos];
      readPos := (readPos + 1) % 4096;
      count := count - 1;
      consumed := consumed + [b];
    }

    method WriteOne(b: byte)
      requires Valid() && count < 4096
      modifies this, buffer
      ensures Valid() && (View(), Outcome.Moved(b)) == WriteStep(old(View()), b)
    {
      WriteKeepsInv(View(), b);
      buffer[writePos] := b;
      writePos := (writePos + 1) % 4096;
      count := count + 1;
      written := written + [b];
    }

    /** pipe_read with no writer active: the oldest bytes, as many as asked for or there are. */
    method Read(dst: array<byte>, size: nat) returns (e: Ending, ghost n: nat)
      requires Valid() && size <= dst.Length && dst != buffer
      modifies this, dst
      ensures Valid() && View().written == old(View()).written && writers == old(writers)
      ensures n == if size <= old(count) then size else old(count)
      ensures dst[..n] == Unread(old(View()))[..n] && Unread(View()) == Unread(old(View()))[n..]
      ensures dst[n..] == old(dst[n..])
      ensures e == if size <= old(count) || old(writers) == 0 then Returned(n) else Waiting
    {
      ghost var u := Unread(View());
      var bytesRead: nat := 0;
      n := 0;
      while bytesRead < size
        invariant bytesRead <= size && bytesRead <= |u| && n == bytesRead && |u| == old(count)
        invariant Valid() && written == old(written) && writers == old(writers)
        invariant count == |u| - bytesRead
        invariant dst[..bytesRead] == u[..bytesRead] && Unread(View()) == u[bytesRead..]
        invariant dst[bytesRead..] == old(dst[bytesRead..])
      {
        if count == 0 {
          return if writers == 0 then Returned(bytesRead) else Waiting, bytesRead;
        }
        ghost var before := dst[..];
        var b := ReadOne();
        dst[bytesRead] := b;
        OneMore(before, dst[..], old(dst[..]), u, bytesRead, b);
        bytesRead := bytesRead + 1;
        n := bytesRead;
      }
      return Returned(bytesRead), bytesRead;
    }

    /** pipe_write with no reader active: as many bytes as there is room for. */
    method Write(src: seq<byte>) returns (e: Ending, ghost n: nat)
      requires Valid()
      modifies this, buffer
      ensures Valid() && View().read == old(View()).read
      ensures n == if |src| <= 4096 - old(count) then |src| else 4096 - old(count)
      ensures Unread(View()) == Unread(old(View())) + src[..n]
      ensures e == if n == |src| then Returned(n) else Waiting
    {
      var bytesWritten: nat := 0;
      while bytesWritten < |src|
        invariant bytesWritten <= |src| && Valid() && consumed == old(consumed)
        invariant count == old(count) + bytesWritten
        invariant Unread(View()) == Unread(old(View())) + src[..bytesWritten]
      {
        if count >= 4096 {
          if readers == 0 {
            return Returned(-1), bytesWritten;
          }
          return Waiting, bytesWritten;
        }
        WriteKeepsInv(View(), src[bytesWritten]);
        WriteOne(src[bytesWritten]);
        bytesWritten := bytesWritten + 1;
      }
      assert src[..|src|] == src;
      return Returned(bytesWritten), bytesWritten;
    }

    /** pipe_close; CloseKeepsInv keeps Valid(). */
    method Close()
      modifies this
      ensures View() == PipeQueue.Close(old(View()))
    {
      if inUse {
        writers := writers - 1;
        if writers <= 0 && readers <= 0 {
          inUse := false;
        }
      }
    }
  }

  // One more byte in its place.
  lemma OneMore(d: seq<byte>, d': seq<byte>, first: seq<byte>, u: seq<byte>, k: nat, b: byte)
    requires k < |d| == |first| && k < |u| && d[..k] == u[..k] && d[k..] == first[k..]
    requires d' == d[k := b] && b == u[k..][0]
    ensures d'[..k + 1] == u[..k + 1] && d'[k + 1..] == first[k + 1..] && u[k..][1..] == u[k + 1..]
  {
    assert d[k..][1..] == d[k + 1..] && first[k..][1..] == first[k + 1..];
  }
}
