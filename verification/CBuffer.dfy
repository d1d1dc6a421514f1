/** Character buffers filled one byte at a time, with a NUL written after the last one. */
module CBuffers {
  import opened Bytes

  lemma {:induction false} TerminatedString(s: seq<Byte>, n: nat)
    requires n < |s| && s[n] == 0
    ensures CString(s) == CString(s[..n])
  {
    if n > 0 && s[0] != 0 {
      TerminatedString(s[1..], n - 1);
      assert s[1..][..n - 1] == s[..n][1..];
    }
  }

  class CBuffer {
    const buf: array<Byte>
    var count: nat

    /** The byte after the last one read is the terminator. */
    ghost predicate Valid()
      reads this, buf
    {
      count < buf.Length && buf[count] == 0
    }

    /** The bytes read so far. */
    ghost function Text(): seq<Byte>
      requires count <= buf.Length
      reads this, buf
    {
      buf[..count]
    }

    constructor (size: nat)
      requires size > 0
      ensures Valid() && fresh(buf) && buf.Length == size && Text() == []
    {
      buf := new Byte[size](_ => 0);
      count := 0;
    }

    /** One more byte. The buffer must have room for the byte and for the terminator. */
    method Put(c: Byte)
      requires Valid() && count + 1 < buf.Length
      modifies this, buf
      ensures Valid() && Text() == old(Text()) + [c] && count == old(count) + 1
    {
      buf[count] := c;
      count := count + 1;
      buf[count] := 0;
      assert buf[..count] == old(buf[..count]) + [c];
    }

    /** What the string functions see. */
    method AsString() returns (s: seq<Byte>)
      requires Valid()
      ensures s == CString(Text())
    {
      TerminatedString(buf[..], count);
      s := CString(buf[..]);
    }
  }

  /**
   * The text after a byte has been added in an array of `size` bytes that its counter follows in memory: the NUL
   * after the last byte of a full array falls on the counter, so nothing counts as read.
   */
  function Stored(text: seq<Byte>, size: nat): (r: seq<Byte>)
    ensures |text| <= size && size > 0 ==> |r| < size
  {
    if |text| == size then [] else text
  }

  /** An array of 255 bytes and, in the byte after it, the counter of those read. */
  class CountedBuffer {
    const mem: array<Byte>

    ghost predicate Valid()
      reads mem
    {
      mem.Length == 256 && mem[255] < 255
    }

    function Count(): nat
      requires mem.Length == 256
      reads mem
    {
      mem[255]
    }

    ghost function Text(): seq<Byte>
      requires Valid()
      reads mem
    {
      mem[..mem[255]]
    }

    /** The byte after the last one read is a NUL. */
    ghost predicate Terminated()
      requires Valid()
      reads mem
    {
      mem[mem[255]] == 0
    }

    constructor ()
      ensures Valid() && fresh(mem) && Text() == [] && Terminated()
    {
      mem := new Byte[256](_ => 0);
    }

    method Put(c: Byte)
      requires Valid()
      modifies mem
      ensures Valid() && Text() == Stored(old(Text()) + [c], 255)
      ensures |old(Text())| < 254 ==> Terminated()
    {
      mem[mem[255]] := c;
      mem[255] := mem[255] + 1;
      assert mem[..mem[255]] == old(Text()) + [c];
      mem[mem[255]] := 0;
      assert mem[255] != 0 ==> mem[..mem[255]] == old(Text()) + [c];
    }

    /** Nothing counts as read. */
    method Clear()
      requires Valid()
      modifies mem
      ensures Valid() && Text() == []
      ensures old(Text()) == [] && old(Terminated()) ==> Terminated()
    {
      mem[255] := 0;
    }

    /** What the string functions see. */
    method AsString() returns (s: seq<Byte>)
      requires Valid() && Terminated()
      ensures s == CString(Text())
    {
      TerminatedString(mem[..], mem[255]);
      s := CString(mem[..]);
    }
  }
}
