/** Bytes and the few ASCII byte values the form decoders look at. */
module Bytes {

  /** One octet of an encoded form body. */
  newtype byte = x: int | 0 <= x < 256

  const SPACE: byte := 0x20
  const AMPERSAND: byte := 0x26
  const PERCENT: byte := 0x25
  const PLUS: byte := 0x2B
  const EQUALS: byte := 0x3D

  /** True if every character of `s` is a 7-bit ASCII character. */
  predicate IsAscii(s: string) {
    forall i :: 0 <= i < |s| ==> s[i] as int < 0x80
  }

  /** The bytes of an ASCII string, one byte per character: how a byte
      literal such as `b"foo=1"` is written in this model. */
  function AsciiBytes(s: string): (r: seq<byte>)
    requires IsAscii(s)
    ensures |r| == |s|
    ensures forall i :: 0 <= i < |s| ==> r[i] as int == s[i] as int
  {
    seq(|s|, i requires 0 <= i < |s| => s[i] as int as byte)
  }
}
