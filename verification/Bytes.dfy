/** Bytes, the signed views C takes of them, and the results of the socket calls. */
module Bytes {

  type Byte = x: int | 0 <= x < 256

  datatype Option<+T> = None | Some(value: T)

  /** The value of a byte held in an `int8_t` or a signed `char`. */
  function Signed(b: Byte): int {
    if b < 128 then b else b - 256
  }

  /** The byte an `int8_t` is stored as. */
  function Unsigned(i: int): Byte
    requires -128 <= i < 128
  {
    if i < 0 then i + 256 else i
  }

  /** What the string functions see in a NUL-terminated buffer holding `s`: the bytes before the first NUL. */
  function CString(s: seq<Byte>): (r: seq<Byte>)
    ensures |r| <= |s|
  {
    if s == [] || s[0] == 0 then [] else [s[0]] + CString(s[1..])
  }

  lemma {:induction false} CStringIsWhole(s: seq<Byte>)
    ensures CString(s) == s <==> 0 !in s
    ensures 0 !in CString(s)
  {
    if s != [] && s[0] != 0 {
      CStringIsWhole(s[1..]);
      assert s == [s[0]] + s[1..];
    }
  }

  lemma {:induction false} CStringOfNulFree(s: seq<Byte>)
    requires 0 !in s
    ensures CString(s) == s
  {
    CStringIsWhole(s);
  }

  /** What `recv` returned: a positive count, zero, or a negative value. */
  datatype Recv = Data(bytes: seq<Byte>) | Eof | RecvFailed

  /** What `send` returned: a positive count, or zero or less. */
  datatype Send = Sent(count: nat) | SendFailed
}
