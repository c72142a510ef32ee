/** UTF-8 as defined by section 3 and the byte-sequence table of section 4 of
    RFC 3629: the check that percent-decoded form bytes are text. */
module Utf8 {
  import opened Bytes
  import opened Results

  predicate IsContinuation(b: byte) {
    0x80 <= b <= 0xBF
  }

  /** Lowest second byte allowed after lead byte `b0` (excludes overlong forms). */
  function SecondLow(b0: byte): byte {
    if b0 == 0xE0 then 0xA0 else if b0 == 0xF0 then 0x90 else 0x80
  }

  /** Highest second byte allowed after lead byte `b0` (excludes surrogates
      and code points above U+10FFFF). */
  function SecondHigh(b0: byte): byte {
    if b0 == 0xED then 0x9F else if b0 == 0xF4 then 0x8F else 0xBF
  }

  /** The UTF-8 encoding of one scalar value. */
  function EncodeChar(c: char): (r: seq<byte>)
    ensures 1 <= |r| <= 4
    ensures (c as int < 0x80) <==> |r| == 1
    ensures forall i :: 1 <= i < |r| ==> IsContinuation(r[i])
  {
    var n := c as int;
    if n < 0x80 then
      [n as byte]
    else if n < 0x800 then
      [(0xC0 + n / 0x40) as byte, (0x80 + n % 0x40) as byte]
    else if n < 0x1_0000 then
      [(0xE0 + n / 0x1000) as byte, (0x80 + n / 0x40 % 0x40) as byte, (0x80 + n % 0x40) as byte]
    else
      [(0xF0 + n / 0x4_0000) as byte, (0x80 + n / 0x1000 % 0x40) as byte,
       (0x80 + n / 0x40 % 0x40) as byte, (0x80 + n % 0x40) as byte]
  }

  /** The UTF-8 encoding of a text. */
  function Encode(t: string): (r: seq<byte>)
    ensures |t| <= |r| <= 4 * |t|
  {
    if |t| == 0 then [] else EncodeChar(t[0]) + Encode(t[1..])
  }

  /** The scalar value encoded by the well-formed byte sequence at the front
      of `s`, and that sequence's length; `None` when `s` does not start with
      a well-formed sequence. */
  function DecodeFirst(s: seq<byte>): (r: Option<(char, nat)>)
    requires |s| > 0
    ensures r.Some? ==> 1 <= r.value.1 <= |s|
  {
    var b0 := s[0];
    if b0 < 0x80 then
      Some((b0 as int as char, 1))
    else if 0xC2 <= b0 <= 0xDF then
      if |s| >= 2 && IsContinuation(s[1]) then
        Some((((b0 as int - 0xC0) * 0x40 + (s[1] as int - 0x80)) as char, 2))
      else None
    else if 0xE0 <= b0 <= 0xEF then
      if |s| >= 3 && SecondLow(b0) <= s[1] <= SecondHigh(b0) && IsContinuation(s[2]) then
        Some((((b0 as int - 0xE0) * 0x1000 + (s[1] as int - 0x80) * 0x40 + (s[2] as int - 0x80)) as char, 3))
      else None
    else if 0xF0 <= b0 <= 0xF4 then
      if |s| >= 4 && SecondLow(b0) <= s[1] <= SecondHigh(b0) && IsContinuation(s[2]) && IsContinuation(s[3]) then
        Some((((b0 as int - 0xF0) * 0x4_0000 + (s[1] as int - 0x80) * 0x1000
               + (s[2] as int - 0x80) * 0x40 + (s[3] as int - 0x80)) as char, 4))
      else None
    else None
  }

  /** The text a byte sequence encodes, or `None` if it is not well-formed UTF-8. */
  function Decode(s: seq<byte>): (r: Option<string>)
    ensures r.Some? ==> |r.value| <= |s|
    decreases |s|
  {
    if |s| == 0 then Some([])
    else
      match DecodeFirst(s)
      case None => None
      case Some((c, n)) =>
        match Decode(s[n..])
        case None => None
        case Some(rest) => Some([c] + rest)
  }

  /** Digits of a code point in base 64, the radix UTF-8 continuation bytes use. */
  lemma Base64Digits(n: int)
    requires 0 <= n
    ensures n == n / 0x40 * 0x40 + n % 0x40
    ensures n / 0x40 == n / 0x1000 * 0x40 + n / 0x40 % 0x40
    ensures n / 0x1000 == n / 0x4_0000 * 0x40 + n / 0x1000 % 0x40
  {
  }

  /** The base-64 digits of `a * 64 + b` are `a` and `b`. */
  lemma Base64Join(a: int, b: int)
    requires 0 <= a && 0 <= b < 0x40
    ensures (a * 0x40 + b) / 0x40 == a && (a * 0x40 + b) % 0x40 == b
  {
  }

  /** A two-byte encoding decodes back to its scalar value. */
  lemma DecodeFirstEncodeTwo(c: char, rest: seq<byte>)
    requires 0x80 <= c as int < 0x800
    ensures DecodeFirst(EncodeChar(c) + rest) == Some((c, 2))
  {
    var n := c as int;
    var s := EncodeChar(c) + rest;
    Base64Digits(n);
    assert s[0] as int == 0xC0 + n / 0x40 && s[1] as int == 0x80 + n % 0x40;
  }

  /** A three-byte encoding decodes back to its scalar value: its second byte
      lies in the range its lead byte allows. */
  lemma DecodeFirstEncodeThree(c: char, rest: seq<byte>)
    requires 0x800 <= c as int < 0x1_0000
    ensures DecodeFirst(EncodeChar(c) + rest) == Some((c, 3))
  {
    var n := c as int;
    var s := EncodeChar(c) + rest;
    Base64Digits(n);
    assert s[0] as int == 0xE0 + n / 0x1000;
    assert s[1] as int == 0x80 + n / 0x40 % 0x40;
    assert s[2] as int == 0x80 + n % 0x40;
    assert n / 0x1000 == 0 ==> n / 0x40 % 0x40 >= 0x20;
    assert n / 0x1000 == 0xD ==> n / 0x40 % 0x40 < 0x20;
  }

  /** A four-byte encoding decodes back to its scalar value. */
  lemma DecodeFirstEncodeFour(c: char, rest: seq<byte>)
    requires 0x1_0000 <= c as int
    ensures DecodeFirst(EncodeChar(c) + rest) == Some((c, 4))
  {
    var n := c as int;
    var s := EncodeChar(c) + rest;
    Base64Digits(n);
    assert s[0] as int == 0xF0 + n / 0x4_0000;
    assert s[1] as int == 0x80 + n / 0x1000 % 0x40;
    assert s[2] as int == 0x80 + n / 0x40 % 0x40;
    assert s[3] as int == 0x80 + n % 0x40;
    assert n / 0x4_0000 == 0 ==> n / 0x1000 % 0x40 >= 0x10;
    assert n / 0x4_0000 == 4 ==> n / 0x1000 % 0x40 < 0x10;
  }

  /** Decoding undoes the encoding of one scalar value, whatever follows it. */
  lemma DecodeFirstEncodeChar(c: char, rest: seq<byte>)
    ensures DecodeFirst(EncodeChar(c) + rest) == Some((c, |EncodeChar(c)|))
  {
    var n := c as int;
    if n < 0x80 {
    } else if n < 0x800 {
      DecodeFirstEncodeTwo(c, rest);
    } else if n < 0x1_0000 {
      DecodeFirstEncodeThree(c, rest);
    } else {
      DecodeFirstEncodeFour(c, rest);
    }
  }

  /** A well-formed two-byte sequence is the encoding of what it decodes to. */
  lemma CanonicalTwo(b0: byte, b1: byte)
    requires 0xC2 <= b0 <= 0xDF && IsContinuation(b1)
    ensures DecodeFirst([b0, b1]).Some?
    ensures EncodeChar(DecodeFirst([b0, b1]).value.0) == [b0, b1]
  {
    Base64Join(b0 as int - 0xC0, b1 as int - 0x80);
  }

  /** A well-formed three-byte sequence is the encoding of what it decodes to. */
  lemma CanonicalThree(b0: byte, b1: byte, b2: byte)
    requires 0xE0 <= b0 <= 0xEF && SecondLow(b0) <= b1 <= SecondHigh(b0) && IsContinuation(b2)
    ensures DecodeFirst([b0, b1, b2]).Some?
    ensures EncodeChar(DecodeFirst([b0, b1, b2]).value.0) == [b0, b1, b2]
  {
    var hi := (b0 as int - 0xE0) * 0x40 + (b1 as int - 0x80);
    Base64Join(hi, b2 as int - 0x80);
    Base64Join(b0 as int - 0xE0, b1 as int - 0x80);
    var n := DecodeFirst([b0, b1, b2]).value.0 as int;
    assert n == hi * 0x40 + (b2 as int - 0x80);
    assert n / 0x40 == hi;
    assert n / 0x1000 == b0 as int - 0xE0 by { Base64Digits(n); }
  }

  /** A well-formed four-byte sequence is the encoding of what it decodes to. */
  lemma CanonicalFour(b0: byte, b1: byte, b2: byte, b3: byte)
    requires 0xF0 <= b0 <= 0xF4 && SecondLow(b0) <= b1 <= SecondHigh(b0)
    requires IsContinuation(b2) && IsContinuation(b3)
    ensures DecodeFirst([b0, b1, b2, b3]).Some?
    ensures EncodeChar(DecodeFirst([b0, b1, b2, b3]).value.0) == [b0, b1, b2, b3]
  {
    var mid := (b0 as int - 0xF0) * 0x40 + (b1 as int - 0x80);
    var hi := mid * 0x40 + (b2 as int - 0x80);
    Base64Join(hi, b3 as int - 0x80);
    Base64Join(mid, b2 as int - 0x80);
    Base64Join(b0 as int - 0xF0, b1 as int - 0x80);
    var n := hi * 0x40 + (b3 as int - 0x80);
    assert DecodeFirst([b0, b1, b2, b3]) == Some((n as char, 4));
    assert n / 0x40 == hi;
    assert n / 0x1000 == mid by { Base64Digits(n); }
    assert n / 0x4_0000 == b0 as int - 0xF0 by { Base64Digits(n); }
    assert 0x1_0000 <= n;
    var e := EncodeChar(n as char);
    assert e[0] == b0 && e[1] == b1 && e[2] == b2 && e[3] == b3;
  }

  /** The first sequence of `s` depends only on its own bytes. */
  lemma DecodeFirstPrefix(s: seq<byte>)
    requires |s| > 0 && DecodeFirst(s).Some?
    ensures DecodeFirst(s[..DecodeFirst(s).value.1]) == DecodeFirst(s)
  {
  }

  /** Only the canonical encoding of a scalar value is accepted. */
  lemma DecodeFirstCanonical(s: seq<byte>)
    requires |s| > 0 && DecodeFirst(s).Some?
    ensures s[..DecodeFirst(s).value.1] == EncodeChar(DecodeFirst(s).value.0)
  {
    var k := DecodeFirst(s).value.1;
    var p := s[..k];
    DecodeFirstPrefix(s);
    if k == 1 {
    } else if k == 2 {
      assert p == [s[0], s[1]];
      CanonicalTwo(s[0], s[1]);
    } else if k == 3 {
      assert p == [s[0], s[1], s[2]];
      CanonicalThree(s[0], s[1], s[2]);
    } else {
      assert p == [s[0], s[1], s[2], s[3]];
      CanonicalFour(s[0], s[1], s[2], s[3]);
    }
  }

  /** Encoding then decoding a text gives the text back. */
  lemma {:induction false} DecodeEncode(t: string)
    ensures Decode(Encode(t)) == Some(t)
  {
    if |t| > 0 {
      var e := EncodeChar(t[0]);
      DecodeFirstEncodeChar(t[0], Encode(t[1..]));
      assert (e + Encode(t[1..]))[|e|..] == Encode(t[1..]);
      DecodeEncode(t[1..]);
      assert [t[0]] + t[1..] == t;
    }
  }

  /** The encoding of a text is its first character's encoding followed by
      the encoding of the rest. */
  lemma EncodeCons(c: char, rest: string)
    ensures Encode([c] + rest) == EncodeChar(c) + Encode(rest)
  {
    assert ([c] + rest)[0] == c && ([c] + rest)[1..] == rest;
  }

  /** A well-formed byte sequence decodes to its first sequence's character
      followed by what the remaining bytes decode to. */
  lemma DecodeCons(s: seq<byte>)
    requires |s| > 0 && Decode(s).Some?
    ensures DecodeFirst(s).Some? && Decode(s[DecodeFirst(s).value.1..]).Some?
    ensures Decode(s).value == [DecodeFirst(s).value.0] + Decode(s[DecodeFirst(s).value.1..]).value
  {
  }

  /** Bytes that are the encoding of `c` followed by the encoding of `rest`
      are the encoding of `[c] + rest`. */
  lemma EncodeSplit(s: seq<byte>, n: nat, c: char, rest: string)
    requires n <= |s| && s[..n] == EncodeChar(c) && s[n..] == Encode(rest)
    ensures Encode([c] + rest) == s
  {
    EncodeCons(c, rest);
    assert s == s[..n] + s[n..];
  }

  /** Decoding accepts only canonical encodings: re-encoding the decoded text
      reproduces the input bytes exactly. */
  lemma {:induction false} EncodeDecode(s: seq<byte>)
    requires Decode(s).Some?
    ensures Encode(Decode(s).value) == s
    decreases |s|
  {
    if |s| > 0 {
      DecodeCons(s);
      var c, n := DecodeFirst(s).value.0, DecodeFirst(s).value.1;
      DecodeFirstCanonical(s);
      EncodeDecode(s[n..]);
      EncodeSplit(s, n, c, Decode(s[n..]).value);
    }
  }

  /** The characters that ASCII bytes stand for, one per byte. */
  function AsciiText(s: seq<byte>): (t: string)
    requires forall i :: 0 <= i < |s| ==> s[i] < 0x80
    ensures |t| == |s|
  {
    seq(|s|, i requires 0 <= i < |s| => s[i] as int as char)
  }

  /** Bytes below 0x80 are valid UTF-8 and each decodes to the character of
      the same number. */
  lemma {:induction false} DecodeAscii(s: seq<byte>)
    requires forall i :: 0 <= i < |s| ==> s[i] < 0x80
    ensures Decode(s) == Some(AsciiText(s))
    decreases |s|
  {
    if |s| > 0 {
      DecodeAscii(s[1..]);
      assert AsciiText(s) == [s[0] as int as char] + AsciiText(s[1..]);
    }
  }
}
