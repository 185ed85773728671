// The two Java library objects the key codec works through, reduced to the
// behaviour the codec relies on: a `DataInputStream` reading a
// `ByteArrayInputStream` (a byte string and a read cursor), and a heap
// `java.nio.ByteBuffer` (a fixed backing array with position and limit).
// A Java exception (EOFException, BufferOverflowException, ...) is a `None`
// or a `false` result here; the callers turn it into their own failure.
module JavaIo {
  import opened Bytes

  /** `new DataInputStream(new ByteArrayInputStream(buf))`. */
  class DataInput {
    const buf: seq<byte>
    var pos: nat

    ghost predicate Valid()
      reads this
    {
      pos <= |buf|
    }

    constructor (b: seq<byte>)
      ensures Valid() && buf == b && pos == 0
    {
      buf := b;
      pos := 0;
    }

    /** `readUnsignedByte()` (and `readByte()`, read by its bit pattern);
        `None` is the EOFException at the end of the input. */
    method ReadUnsignedByte() returns (r: Option<byte>)
      requires Valid()
      modifies this
      ensures Valid()
      ensures old(pos) < |buf| ==> r == Some(buf[old(pos)]) && pos == old(pos) + 1
      ensures old(pos) == |buf| ==> r == None && pos == old(pos)
    {
      if pos < |buf| {
        r := Some(buf[pos]);
        pos := pos + 1;
      } else {
        r := None;
      }
    }

    /** `readUnsignedShort()`: two bytes, big-endian; EOFException if either is missing. */
    method ReadUnsignedShort() returns (r: Option<nat>)
      requires Valid()
      modifies this
      ensures Valid()
      ensures old(pos) + 2 <= |buf| ==>
                r == Some(buf[old(pos)] as int * 256 + buf[old(pos) + 1] as int) && pos == old(pos) + 2
      ensures old(pos) + 2 > |buf| ==> r == None && pos == |buf|
    {
      var hi := ReadUnsignedByte();
      var lo := ReadUnsignedByte();
      if hi.Some? && lo.Some? {
        r := Some(hi.value as int * 256 + lo.value as int);
      } else {
        r := None;
      }
    }

    /** `read(dst)`: -1 when no byte is left (even for an empty `dst`), otherwise
        the number of bytes copied, `min(dst.length, available)`. */
    method Read(dst: array<byte>) returns (n: int)
      requires Valid()
      modifies this, dst
      ensures Valid()
      ensures old(pos) == |buf| ==> n == -1 && pos == old(pos) && dst[..] == old(dst[..])
      ensures old(pos) < |buf| ==>
                n == Min(dst.Length, |buf| - old(pos)) && pos == old(pos) + n &&
                dst[..n] == buf[old(pos)..pos] && dst[n..] == old(dst[n..])
    {
      if pos == |buf| {
        return -1;
      }
      n := Min(dst.Length, |buf| - pos);
      forall i | 0 <= i < n {
        dst[i] := buf[pos + i];
      }
      pos := pos + n;
    }
  }

  /** `ByteBuffer.allocate(capacity)`: relative puts write at `position`, `flip`
      makes the written bytes readable, relative gets read from `position`. */
  class ByteBuffer {
    const data: array<byte>
    var position: nat
    var limit: nat

    ghost predicate Valid()
      reads this
    {
      position <= limit <= data.Length
    }

    constructor Allocate(capacity: nat)
      ensures Valid() && fresh(data)
      ensures data.Length == capacity && position == 0 && limit == capacity
    {
      data := new byte[capacity];
      position, limit := 0, capacity;
    }

    /** `put(byte)`: false is the BufferOverflowException when position has reached limit. */
    method Put(b: byte) returns (ok: bool)
      requires Valid()
      modifies this, data
      ensures Valid() && limit == old(limit)
      ensures ok == (old(position) < limit)
      ensures ok ==> position == old(position) + 1 && data[..position] == old(data[..position]) + [b]
      ensures ok ==> data[position..] == old(data[..])[position..]
      ensures !ok ==> position == old(position) && data[..] == old(data[..])
    {
      ok := position < limit;
      if ok {
        data[position] := b;
        position := position + 1;
      }
    }

    /** `put(byte[])`: all of `src` or, when it does not fit, nothing and an overflow. */
    method PutBytes(src: seq<byte>) returns (ok: bool)
      requires Valid()
      modifies this, data
      ensures Valid() && limit == old(limit)
      ensures ok == (|src| <= limit - old(position))
      ensures ok ==> position == old(position) + |src| && data[..position] == old(data[..position]) + src
      ensures ok ==> data[position..] == old(data[..])[position..]
      ensures !ok ==> position == old(position) && data[..] == old(data[..])
    {
      ok := |src| <= limit - position;
      if ok {
        forall i | 0 <= i < |src| {
          data[position + i] := src[i];
        }
        position := position + |src|;
      }
    }

    /** `put(ByteBuffer src)`: moves the remaining bytes of `src`, all or nothing. */
    method PutBuffer(src: ByteBuffer) returns (ok: bool)
      requires Valid() && src.Valid() && src != this && src.data != data
      modifies this, data, src
      ensures Valid() && src.Valid() && limit == old(limit) && src.limit == old(src.limit)
      ensures ok == (old(src.limit - src.position) <= limit - old(position))
      ensures ok ==> position == old(position) + old(src.limit - src.position) &&
                     data[..position] == old(data[..position]) + old(src.data[src.position..src.limit]) &&
                     src.position == src.limit
      ensures ok ==> data[position..] == old(data[..])[position..]
      ensures !ok ==> position == old(position) && src.position == old(src.position) && data[..] == old(data[..])
    {
      var n := src.limit - src.position;
      ok := n <= limit - position;
      if ok {
        forall i | 0 <= i < n {
          data[position + i] := src.data[src.position + i];
        }
        position := position + n;
        src.position := src.limit;
      }
    }

    /** `flip()`: the bytes written so far become the readable window. */
    method Flip()
      requires Valid()
      modifies this
      ensures Valid() && limit == old(position) && position == 0
    {
      limit := position;
      position := 0;
    }

    /** `get(byte[] dst)`: fills `dst` from position, or fails (BufferUnderflowException). */
    method Get(dst: array<byte>) returns (ok: bool)
      requires Valid() && dst != data
      modifies this, dst
      ensures Valid() && limit == old(limit)
      ensures ok == (dst.Length <= limit - old(position))
      ensures ok ==> position == old(position) + dst.Length && dst[..] == data[old(position)..position]
      ensures !ok ==> position == old(position) && dst[..] == old(dst[..])
    {
      ok := dst.Length <= limit - position;
      if ok {
        forall i | 0 <= i < dst.Length {
          dst[i] := data[position + i];
        }
        position := position + dst.Length;
      }
    }
  }
}
