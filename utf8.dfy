/**
  Rust strings are UTF-8 byte buffers and `String::len` counts bytes, not
  characters.  This module gives the UTF-8 encoding of a Dafny string (a
  sequence of Unicode scalar values) so that the byte length the renderer
  tests can be stated exactly.
*/
module Utf8 {

  /** One UTF-8 code unit. */
  type Byte = b: int | 0 <= b < 0x100

  /** The UTF-8 encoding of one scalar value (RFC 3629, section 3). */
  function EncodeChar(c: char): (r: seq<Byte>)
    ensures 1 <= |r| <= 4
    ensures |r| == 1 <==> c as int < 0x80
    ensures |r| == 1 ==> r[0] == c as int
  {
    var cp := c as int;
    if cp < 0x80 then
      [cp]
    else if cp < 0x800 then
      [0xC0 + cp / 0x40, 0x80 + cp % 0x40]
    else if cp < 0x1_0000 then
      [0xE0 + cp / 0x1000, 0x80 + (cp / 0x40) % 0x40, 0x80 + cp % 0x40]
    else
      [0xF0 + cp / 0x4_0000, 0x80 + (cp / 0x1000) % 0x40, 0x80 + (cp / 0x40) % 0x40, 0x80 + cp % 0x40]
  }

  /** The UTF-8 encoding of a whole string: the bytes a Rust `String` holds. */
  function Encode(s: string): (r: seq<Byte>)
    ensures |r| >= |s|
  {
    if |s| == 0 then [] else EncodeChar(s[0]) + Encode(s[1..])
  }

  /** What Rust's `String::len` returns: never less than the number of characters. */
  function ByteLength(s: string): (n: nat)
    ensures n >= |s|
  {
    |Encode(s)|
  }

  /** A string is one byte long exactly when it is a single ASCII character. */
  lemma {:induction false} ByteLengthOne(s: string)
    ensures ByteLength(s) == 1 <==> |s| == 1 && s[0] as int < 0x80
  {
    if |s| == 1 {
      assert Encode(s) == EncodeChar(s[0]) + Encode(s[1..]);
      assert Encode(s[1..]) == [];
    }
  }
}
