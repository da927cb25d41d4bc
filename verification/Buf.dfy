/** The growable byte queue under both streams. */
module Buf {
  import opened Bytes
  import opened MemState

  class Buffer {
    var buffer: array<byte>
    var bufLen: nat
    var dataLen: nat

    ghost predicate Valid()
      reads this
    {
      dataLen <= bufLen <= buffer.Length && 1 <= buffer.Length
    }

    /** The bytes queued and not yet picked, oldest first. */
    ghost function Contents(): seq<byte>
      requires Valid()
      reads this, buffer
    {
      buffer[..dataLen]
    }

    /** A buffer as the streams set it up; its bytes are a cleared block of the allocator's class. */
    constructor (size: nat)
      requires size <= MAX_EXT_MEM_BLOCK
      ensures Valid() && fresh(buffer) && Contents() == [] && bufLen == size
    {
      SizeClassExact(size);
      buffer := new byte[Cap(SizeClass(size))](_ => 0);
      bufLen, dataLen := size, 0;
    }

    /** buf_free_space */
    function FreeSpace(): nat
      requires Valid()
      reads this
    {
      bufLen - dataLen
    }

    /** clear_space */
    method Clear()
      requires Valid()
      modifies this`dataLen, buffer
      ensures Valid() && Contents() == []
    {
      buffer[0] := 0;
      dataLen := 0;
    }

    /** `memmove(b->buffer, b->buffer + len, n)`, overlapping and in place. */
    method MoveDown(len: nat, n: nat)
      requires len + n <= buffer.Length
      modifies buffer
      ensures buffer[..n] == old(buffer[len..len + n])
    {
      var k := 0;
      while k < n
        invariant 0 <= k <= n
        invariant forall j :: 0 <= j < k ==> buffer[j] == old(buffer[len + j])
        invariant forall j :: k <= j < buffer.Length ==> buffer[j] == old(buffer[j])
      {
        buffer[k] := buffer[len + k];
        k := k + 1;
      }
    }

    /** buf_pick: the oldest len bytes leave the queue. */
    method Pick(len: nat)
      requires Valid() && len <= dataLen
      modifies this`dataLen, buffer
      ensures Valid() && Contents() == old(Contents()[len..])
    {
      dataLen := dataLen - len;
      if dataLen > 0 {
        MoveDown(len, dataLen);
      }
    }

    /** `memcpy(b->buffer + at, data, |data|)` */
    method CopyIn(at: nat, data: seq<byte>)
      requires at + |data| <= buffer.Length
      modifies buffer
      ensures buffer[..at + |data|] == old(buffer[..at]) + data
    {
      ghost var head := buffer[..at];
      var k := 0;
      while k < |data|
        invariant 0 <= k <= |data|
        invariant buffer[..at + k] == head + data[..k]
      {
        buffer[at + k] := data[k];
        k := k + 1;
      }
    }

    /** buf_realloc: the queue moves to a block that is len bytes larger. */
    method Realloc(len: nat)
      requires Valid() && bufLen + len <= MAX_EXT_MEM_BLOCK
      modifies this
      ensures Valid() && fresh(buffer) && Contents() == old(Contents()) && bufLen == old(bufLen) + len
    {
      SizeClassExact(bufLen + len);
      var n := new byte[Cap(SizeClass(bufLen + len))](_ => 0);
      var k := 0;
      while k < dataLen
        invariant 0 <= k <= dataLen && n[..k] == buffer[..k]
        modifies n
      {
        n[k] := buffer[k];
        k := k + 1;
      }
      buffer := n;
      bufLen := bufLen + len;
    }

    /** buf_put: the bytes join the end of the queue; when they do not fit, the buffer first grows by
        their whole number. */
    method Put(data: seq<byte>)
      requires Valid() && (|data| <= FreeSpace() || bufLen + |data| <= MAX_EXT_MEM_BLOCK)
      modifies this, buffer
      ensures Valid() && Contents() == old(Contents()) + data
      ensures if |data| <= old(FreeSpace()) then buffer == old(buffer) && bufLen == old(bufLen)
              else fresh(buffer) && bufLen == old(bufLen) + |data|
    {
      if FreeSpace() < |data| {
        Realloc(|data|);
      }
      CopyIn(dataLen, data);
      dataLen := dataLen + |data|;
    }
  }
}
