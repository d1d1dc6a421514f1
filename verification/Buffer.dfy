/** src/lib/buffer/buffer.c: a linear buffer with a read and a write position. */
module Buffers {
  import opened Bytes

  /** The unread bytes, where they start, and the capacity. */
  datatype Buf = Buf(cap: nat, read: nat, bytes: seq<Byte>) {
    function Write(): nat { read + |bytes| }

    /** The positions are in order, and an empty buffer sits at its base. */
    ghost predicate Valid() {
      Write() <= cap && (bytes == [] ==> read == 0)
    }

    predicate CanRead() { bytes != [] }

    predicate CanWrite() { Write() < cap }

    /** Room for the next write. */
    function Room(): nat
      requires Write() <= cap
    {
      cap - Write()
    }

    /** After `data` has been written behind the unread bytes. */
    function Wrote(data: seq<Byte>): Buf {
      this.(bytes := bytes + data)
    }

    /** After `n` bytes have been read; the positions go back to the base when none are left. */
    function ReadOff(n: nat): Buf
      requires n <= |bytes|
    {
      if n == |bytes| then Buf(cap, 0, []) else Buf(cap, read + n, bytes[n..])
    }
  }

  /** A valid buffer that is full has something to read, so a reader is never left without progress. */
  lemma FullBufferIsReadable(b: Buf)
    requires b.Valid() && b.cap > 0 && !b.CanWrite()
    ensures b.CanRead()
  {
  }

  /** Reading gives no room back before the buffer is empty, and then all of it. */
  lemma {:induction false} ReadingFreesRoomAtTheEnd(b: Buf, n: nat)
    requires n <= |b.bytes|
    ensures var b' := b.ReadOff(n);
            && b'.bytes == b.bytes[n..] && b'.cap == b.cap
            && b'.Write() == if n < |b.bytes| then b.Write() else 0
  {
  }

  /** Writing takes exactly the room of what is written. */
  lemma {:induction false} WritingTakesRoom(b: Buf, data: seq<Byte>)
    ensures var b' := b.Wrote(data);
            b'.bytes == b.bytes + data && b'.Write() == b.Write() + |data| && (b'.CanWrite() <==> b.Write() + |data| < b.cap)
  {
  }

  class Buffer {
    const data: array<Byte>
    var read: nat
    var write: nat

    /** `data`, `read`, `write` and the fixed limit at the end of `data`. */
    ghost predicate Valid()
      reads this
    {
      read <= write <= data.Length && (read == write ==> read == 0)
    }

    ghost function View(): (b: Buf)
      requires read <= write <= data.Length
      reads this, data
      ensures b.Write() == write
    {
      Buf(data.Length, read, data[read..write])
    }

    constructor (data: array<Byte>)
      ensures Valid() && this.data == data
      ensures View() == Buf(data.Length, 0, [])
    {
      this.data := data;
      read, write := 0, 0;
    }

    method Reset()
      modifies this
      ensures Valid() && View() == Buf(data.Length, 0, [])
    {
      read := 0;
      write := 0;
    }

    method CanWrite() returns (r: bool)
      requires Valid()
      ensures r == View().CanWrite()
    {
      r := data.Length - write > 0;
    }

    method CanRead() returns (r: bool)
      requires read <= write <= data.Length
      ensures r == View().CanRead()
    {
      r := write - read > 0;
    }

    /** Where the next byte goes, and how many fit. */
    method WritePtr() returns (ptr: nat, nbyte: nat)
      requires Valid()
      ensures ptr == write && nbyte == View().Room() && ptr + nbyte == data.Length
    {
      ptr, nbyte := write, data.Length - write;
    }

    /** Where the unread bytes are, and how many there are. */
    method ReadPtr() returns (ptr: nat, nbyte: nat)
      requires Valid()
      ensures ptr == read && nbyte == |View().bytes| && data[ptr..ptr + nbyte] == View().bytes
    {
      ptr, nbyte := read, write - read;
    }

    /** The bytes a caller has put at the write position become part of the contents. */
    method WriteAdv(n: nat)
      requires Valid() && n <= data.Length - write
      modifies this
      ensures Valid() && View() == old(View()).Wrote(old(data[write..write + n]))
    {
      write := write + n;
      assert data[read..write] == data[read..old(write)] + data[old(write)..write];
    }

    /** The unread bytes move to the base, or the positions do when there are none. */
    method Compact()
      requires read <= write <= data.Length
      modifies this, data
      ensures Valid() && View() == Buf(data.Length, 0, old(View().bytes))
    {
      if read == 0 {
        // nothing to move
      } else if read == write {
        read := 0;
        write := 0;
      } else {
        var n := write - read;
        forall i | 0 <= i < n {
          data[i] := data[read + i];
        }
        read := 0;
        write := n;
      }
    }

    method ReadAdv(n: nat)
      requires Valid() && n <= write - read
      modifies this, data
      ensures Valid() && View() == old(View()).ReadOff(n)
    {
      read := read + n;
      if read == write {
        Compact();
      }
    }

    /** The next byte, or 0 when there is none. */
    method ReadByte() returns (c: Byte)
      requires Valid()
      modifies this, data
      ensures Valid()
      ensures var b := old(View());
              if b.CanRead() then c == b.bytes[0] && View() == b.ReadOff(1) else c == 0 && View() == b
    {
      if write - read > 0 {
        c := data[read];
        ReadAdv(1);
      } else {
        c := 0;
      }
    }

    /** One more byte, dropped when the buffer is full. */
    method WriteByte(c: Byte)
      requires Valid()
      modifies this, data
      ensures Valid()
      ensures var b := old(View()); View() == if b.CanWrite() then b.Wrote([c]) else b
    {
      if data.Length - write > 0 {
        data[write] := c;
        assert data[write..write + 1] == [c];
        assert data[read..write] == old(data[read..write]);
        WriteAdv(1);
      }
    }
  }
}
