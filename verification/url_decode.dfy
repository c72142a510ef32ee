/** `urldecode`: the `+` and `%XX` decoding of one `application/x-www-form-urlencoded`
    name or value. `%XX` is the percent-encoding of section 2.1 of RFC 3986 and
    `+` for a space is the convention of the WHATWG URL Standard's form
    parser (section 5.1); unlike that parser, a malformed escape is an error. */
module UrlDecoding {
  import opened Bytes
  import opened Results
  import Utf8

  /** The error `urldecode` and `ValueMap::from_urlencoded` return. */
  datatype UrlDecodingError = UrlDecodingError(message: string)

  /** Message for a `%` not followed by two hex digits. */
  const InvalidSequence: string := "invalid encoding sequence"

  /** Message for decoded bytes that are not UTF-8 text. */
  const InvalidUtf8: string := "invalid utf-8 sequence"

  predicate IsHexDigit(b: byte) {
    0x30 <= b <= 0x39 || 0x41 <= b <= 0x46 || 0x61 <= b <= 0x66
  }

  /** The value of a hex digit, either case. */
  function HexValue(b: byte): (v: nat)
    requires IsHexDigit(b)
    ensures v < 16
  {
    if b <= 0x39 then b as int - 0x30
    else if b <= 0x46 then b as int - 0x41 + 10
    else b as int - 0x61 + 10
  }

  /** The upper-case hex digit for `v`. */
  function HexDigit(v: nat): (b: byte)
    requires v < 16
    ensures IsHexDigit(b) && HexValue(b) == v
  {
    if v < 10 then (0x30 + v) as byte else (0x41 + v - 10) as byte
  }

  /** A `%` at index `i` of `s` starts a complete escape `%XX`. */
  predicate EscapeAt(s: seq<byte>, i: nat) {
    i + 2 < |s| && IsHexDigit(s[i + 1]) && IsHexDigit(s[i + 2])
  }

  /** Every `%` in `s` starts a complete escape. */
  predicate WellEncoded(s: seq<byte>) {
    forall i :: 0 <= i < |s| && s[i] == PERCENT ==> EscapeAt(s, i)
  }

  /** Number of occurrences of `b` in `s`. */
  function Count(s: seq<byte>, b: byte): nat {
    if |s| == 0 then 0 else (if s[0] == b then 1 else 0) + Count(s[1..], b)
  }

  /** Length of the token that starts `s`: an escape `%XX` or one byte. */
  function TokenLen(s: seq<byte>): (n: nat)
    requires |s| > 0
    ensures n <= |s| || !EscapeAt(s, 0)
  {
    if s[0] == PERCENT then 3 else 1
  }

  /** The byte the token at the front of `s` stands for. */
  function TokenByte(s: seq<byte>): byte
    requires |s| > 0 && (s[0] == PERCENT ==> EscapeAt(s, 0))
  {
    if s[0] == PERCENT then (HexValue(s[1]) * 16 + HexValue(s[2])) as byte
    else if s[0] == PLUS then SPACE
    else s[0]
  }

  /** The bytes `s` stands for: `+` becomes a space, `%XX` the byte with hex
      value XX, and every other byte stands for itself. */
  function PercentDecode(s: seq<byte>): (r: Result<seq<byte>, UrlDecodingError>)
    ensures r.Err? ==> r.error == UrlDecodingError(InvalidSequence)
    ensures r.Ok? ==> |r.value| == |s| - 2 * Count(s, PERCENT)
    decreases |s|
  {
    if |s| == 0 then Ok([])
    else if s[0] == PERCENT && !EscapeAt(s, 0) then Err(UrlDecodingError(InvalidSequence))
    else
      var rest :- PercentDecode(s[TokenLen(s)..]);
      assert Count(s, PERCENT) == (if s[0] == PERCENT then 1 else 0) + Count(s[TokenLen(s)..], PERCENT) by {
        if s[0] == PERCENT {
          assert s[1] != PERCENT && s[2] != PERCENT;
          assert s[1..][1..] == s[2..] && s[2..][1..] == s[3..];
          assert Count(s[1..], PERCENT) == Count(s[2..], PERCENT);
          assert Count(s[2..], PERCENT) == Count(s[3..], PERCENT);
        }
      }
      Ok([TokenByte(s)] + rest)
  }

  /** The bytes of `s` with every `+` replaced by a space. */
  function PlusToSpace(s: seq<byte>): (r: seq<byte>)
    ensures |r| == |s|
  {
    seq(|s|, i requires 0 <= i < |s| => if s[i] == PLUS then SPACE else s[i])
  }

  /** Decoding fails exactly when some `%` does not start a complete escape. */
  lemma {:induction false} PercentDecodeOkIff(s: seq<byte>)
    ensures PercentDecode(s).Ok? <==> WellEncoded(s)
    decreases |s|
  {
    if |s| == 0 {
    } else if s[0] == PERCENT {
      if EscapeAt(s, 0) {
        PercentDecodeOkIff(s[3..]);
        if WellEncoded(s[3..]) {
          forall i | 0 <= i < |s| && s[i] == PERCENT
            ensures EscapeAt(s, i)
          {
            if i >= 3 {
              assert s[3..][i - 3] == PERCENT;
              assert EscapeAt(s[3..], i - 3);
            }
          }
        } else {
          var j :| 0 <= j < |s[3..]| && s[3..][j] == PERCENT && !EscapeAt(s[3..], j);
          assert s[j + 3] == PERCENT && !EscapeAt(s, j + 3);
        }
      } else {
        assert !EscapeAt(s, 0);
      }
    } else {
      PercentDecodeOkIff(s[1..]);
      if WellEncoded(s[1..]) {
        forall i | 0 <= i < |s| && s[i] == PERCENT
          ensures EscapeAt(s, i)
        {
          assert s[1..][i - 1] == PERCENT;
          assert EscapeAt(s[1..], i - 1);
        }
      } else {
        var j :| 0 <= j < |s[1..]| && s[1..][j] == PERCENT && !EscapeAt(s[1..], j);
        assert s[j + 1] == PERCENT && !EscapeAt(s, j + 1);
      }
    }
  }

  /** Without escapes, decoding only turns `+` into a space. */
  lemma {:induction false} PercentDecodePlain(s: seq<byte>)
    requires PERCENT !in s
    ensures PercentDecode(s) == Ok(PlusToSpace(s))
    decreases |s|
  {
    if |s| > 0 {
      PercentDecodePlain(s[1..]);
      assert PlusToSpace(s) == [PlusToSpace(s)[0]] + PlusToSpace(s[1..]);
    }
  }

  /** One step of decoding: the token at the front, then the rest. */
  lemma PercentDecodeStep(s: seq<byte>)
    requires |s| > 0 && (s[0] == PERCENT ==> EscapeAt(s, 0))
    ensures var rest := PercentDecode(s[TokenLen(s)..]);
      PercentDecode(s) == if rest.Ok? then Ok([TokenByte(s)] + rest.value) else rest
  {
  }

  /** The front token of `a` is the front token of `a + b`. */
  lemma TokenOfAppend(a: seq<byte>, b: seq<byte>)
    requires |a| > 0 && (a[0] == PERCENT ==> EscapeAt(a, 0))
    ensures TokenLen(a + b) == TokenLen(a) <= |a|
    ensures TokenByte(a + b) == TokenByte(a)
    ensures (a + b)[TokenLen(a)..] == a[TokenLen(a)..] + b
  {
    var ab := a + b;
    assert ab[0] == a[0];
    if a[0] == PERCENT {
      assert ab[1] == a[1] && ab[2] == a[2];
    }
  }

  /** Decoding works piece by piece: after a prefix that decodes, the rest
      decodes (or fails) on its own. */
  lemma {:induction false} PercentDecodeAppend(a: seq<byte>, b: seq<byte>)
    requires PercentDecode(a).Ok?
    ensures PercentDecode(a + b)
      == if PercentDecode(b).Ok? then Ok(PercentDecode(a).value + PercentDecode(b).value) else PercentDecode(b)
    decreases |a|
  {
    if |a| == 0 {
      assert a + b == b;
      if PercentDecode(b).Ok? {
        assert [] + PercentDecode(b).value == PercentDecode(b).value;
      }
    } else {
      assert a[0] == PERCENT ==> EscapeAt(a, 0);
      assert PercentDecode(a[TokenLen(a)..]).Ok? by {
        PercentDecodeStep(a);
      }
      PercentDecodeAppend(a[TokenLen(a)..], b);
      PercentDecodeAppendStep(a, b);
    }
  }

  /** The inductive step of `PercentDecodeAppend`: the front token of `a`
      leads both `a` and `a + b`. */
  lemma PercentDecodeAppendStep(a: seq<byte>, b: seq<byte>)
    requires |a| > 0 && (a[0] == PERCENT ==> EscapeAt(a, 0))
    requires PercentDecode(a[TokenLen(a)..]).Ok?
    requires PercentDecode(a[TokenLen(a)..] + b)
      == if PercentDecode(b).Ok? then Ok(PercentDecode(a[TokenLen(a)..]).value + PercentDecode(b).value)
         else PercentDecode(b)
    ensures PercentDecode(a).Ok?
    ensures PercentDecode(a + b)
      == if PercentDecode(b).Ok? then Ok(PercentDecode(a).value + PercentDecode(b).value) else PercentDecode(b)
  {
    var n := TokenLen(a);
    TokenOfAppend(a, b);
    PercentDecodeStep(a);
    PercentDecodeStep(a + b);
    StepAlgebra([TokenByte(a)], PercentDecode(a), PercentDecode(a + b), PercentDecode(a[n..]),
      PercentDecode(a[n..] + b), PercentDecode(b));
  }

  /** The algebra of one decoding step: a front token prepended to the
      decoding of the rest, with or without `b` behind it. */
  lemma StepAlgebra(t: seq<byte>, ra: Result<seq<byte>, UrlDecodingError>, rab: Result<seq<byte>, UrlDecodingError>,
                    rn: Result<seq<byte>, UrlDecodingError>, rnb: Result<seq<byte>, UrlDecodingError>,
                    rb: Result<seq<byte>, UrlDecodingError>)
    requires rn.Ok? && ra == Ok(t + rn.value)
    requires rab == if rnb.Ok? then Ok(t + rnb.value) else rnb
    requires rnb == if rb.Ok? then Ok(rn.value + rb.value) else rb
    ensures ra.Ok?
    ensures rab == if rb.Ok? then Ok(ra.value + rb.value) else rb
  {
    if rb.Ok? {
      assert t + (rn.value + rb.value) == (t + rn.value) + rb.value;
    }
  }

  /** An escape of two hex digits decodes to the byte they spell. */
  lemma PercentDecodeEscape(hi: byte, lo: byte)
    requires IsHexDigit(hi) && IsHexDigit(lo)
    ensures PercentDecode([PERCENT, hi, lo]) == Ok([(HexValue(hi) * 16 + HexValue(lo)) as byte])
  {
    var s := [PERCENT, hi, lo];
    assert EscapeAt(s, 0);
    assert s[3..] == [];
    assert PercentDecode(s[3..]) == Ok([]);
    var d := [(HexValue(hi) * 16 + HexValue(lo)) as byte];
    assert PercentDecode(s) == Ok(d + []);
    assert d + [] == d;
  }

  /** RFC 3986 section 2.3 unreserved characters: ALPHA / DIGIT / "-" / "." / "_" / "~". */
  predicate IsUnreserved(b: byte) {
    || 0x41 <= b <= 0x5A || 0x61 <= b <= 0x7A || 0x30 <= b <= 0x39
    || b == 0x2D || b == 0x2E || b == 0x5F || b == 0x7E
  }

  /** A form encoder for one byte: unreserved bytes stay, a space becomes `+`,
      every other byte becomes `%XX`. The library only decodes; this encoder is
      the reference its decoder is checked against. */
  function PercentEncodeByte(b: byte): (r: seq<byte>)
    ensures PercentDecode(r) == Ok([b])
  {
    if IsUnreserved(b) then
      assert [b][1..] == [];
      assert PercentDecode([b][1..]) == Ok([]);
      assert [b] + [] == [b];
      [b]
    else if b == SPACE then
      assert [PLUS][1..] == [];
      assert PercentDecode([PLUS][1..]) == Ok([]);
      assert [SPACE] + [] == [SPACE];
      [PLUS]
    else
      var e := [PERCENT, HexDigit(b as int / 16), HexDigit(b as int % 16)];
      PercentDecodeEscape(e[1], e[2]);
      e
  }

  function PercentEncode(s: seq<byte>): seq<byte> {
    if |s| == 0 then [] else PercentEncodeByte(s[0]) + PercentEncode(s[1..])
  }

  /** Decoding undoes form encoding. */
  lemma {:induction false} PercentDecodeEncode(s: seq<byte>)
    ensures PercentDecode(PercentEncode(s)) == Ok(s)
  {
    if |s| > 0 {
      PercentDecodeEncode(s[1..]);
      PercentDecodeAppend(PercentEncodeByte(s[0]), PercentEncode(s[1..]));
      assert [s[0]] + s[1..] == s;
    }
  }

  /** `urldecode`: percent/plus decoding followed by the UTF-8 check. A
      successful result is exactly the text the decoded bytes encode. */
  function UrlDecode(s: seq<byte>): (r: Result<string, UrlDecodingError>)
    ensures r.Ok? ==> PercentDecode(s).Ok? && Utf8.Encode(r.value) == PercentDecode(s).value
    ensures r.Err? ==> r.error.message == InvalidSequence || r.error.message == InvalidUtf8
    ensures r.Err? ==> (r.error.message == InvalidSequence <==> !WellEncoded(s))
    ensures r.Ok? <==> PercentDecode(s).Ok? && Utf8.Decode(PercentDecode(s).value).Some?
  {
    PercentDecodeOkIff(s);
    var bytes :- PercentDecode(s);
    match Utf8.Decode(bytes)
    case Some(t) => Utf8.EncodeDecode(bytes); Ok(t)
    case None => Err(UrlDecodingError(InvalidUtf8))
  }

  /** Whatever `s` percent-decodes to, if anything, is UTF-8: the only way
      `urldecode` can then fail is a malformed `%`. */
  predicate Utf8IfDecodes(s: seq<byte>) {
    PercentDecode(s).Ok? ==> Utf8.Decode(PercentDecode(s).value).Some?
  }

  /** Decoding the form encoding of a text's UTF-8 bytes gives the text back. */
  lemma UrlDecodeEncode(t: string)
    ensures UrlDecode(PercentEncode(Utf8.Encode(t))) == Ok(t)
  {
    PercentDecodeEncode(Utf8.Encode(t));
    Utf8.DecodeEncode(t);
  }

  /** Input that percent-decodes to the UTF-8 encoding of a text decodes to
      that text. */
  lemma UrlDecodeUtf8(s: seq<byte>, t: string)
    requires PercentDecode(s) == Ok(Utf8.Encode(t))
    ensures UrlDecode(s) == Ok(t)
  {
    Utf8.DecodeEncode(t);
  }

  /** Two well-encoded texts joined by a byte other than `%` are well
      encoded: no escape reaches across the join. */
  lemma WellEncodedJoin(a: seq<byte>, sep: byte, b: seq<byte>)
    requires WellEncoded(a) && sep != PERCENT && WellEncoded(b)
    ensures WellEncoded(a + [sep] + b)
  {
    var s := a + [sep] + b;
    forall i | 0 <= i < |s| && s[i] == PERCENT ensures EscapeAt(s, i) {
      if i < |a| {
        assert EscapeAt(a, i);
        assert s[i + 1] == a[i + 1] && s[i + 2] == a[i + 2];
      } else {
        var j := i - |a| - 1;
        assert s[i] == b[j];
        assert EscapeAt(b, j);
        assert s[i + 1] == b[j + 1] && s[i + 2] == b[j + 2];
      }
    }
  }

  /** A `%` without two hex digits after it anywhere in the input makes
      `urldecode` fail with "invalid encoding sequence". */
  lemma UrlDecodeMalformed(s: seq<byte>)
    requires !WellEncoded(s)
    ensures UrlDecode(s) == Err(UrlDecodingError(InvalidSequence))
  {
    PercentDecodeOkIff(s);
  }

  /** An ASCII input without `%` decodes to its own characters with every `+`
      read as a space. */
  lemma UrlDecodePlainAscii(s: seq<byte>)
    requires PERCENT !in s
    requires forall i :: 0 <= i < |s| ==> s[i] < 0x80
    ensures UrlDecode(s) == Ok(Utf8.AsciiText(PlusToSpace(s)))
  {
    PercentDecodePlain(s);
    Utf8.DecodeAscii(PlusToSpace(s));
  }
}
