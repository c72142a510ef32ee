/** The behaviour tests/value.rs pins down for `from_urlencoded` and
    `urldecode`. Each case is an instance of a general lemma about bodies of
    that shape; the facts about the literal texts themselves are kept in
    lemmas of their own. */
module UrlencodedCases {
  import opened Bytes
  import opened Results
  import opened UrlDecoding
  import opened ValueMaps
  import opened Urlencoded
  import Utf8

  /** An ASCII word that stands for itself as a form value: no `%`, `+` or `&`. */
  predicate PlainValue(s: string) {
    IsAscii(s) && '%' !in s && '+' !in s && '&' !in s
  }

  /** A plain word that can also be a field name: no `=` either. */
  predicate PlainName(s: string) {
    PlainValue(s) && '=' !in s
  }

  // General shapes of bodies.

  /** Byte literals concatenate like the strings they spell. */
  lemma AsciiBytesAppend(x: string, y: string)
    requires IsAscii(x) && IsAscii(y)
    ensures IsAscii(x + y) && AsciiBytes(x + y) == AsciiBytes(x) + AsciiBytes(y)
  {
    assert forall i :: 0 <= i < |x + y| ==> (x + y)[i] == if i < |x| then x[i] else y[i - |x|];
  }

  /** The byte literal of `x`, a separator and `y`. */
  lemma AsciiJoin(x: string, sep: char, y: string)
    requires IsAscii(x) && sep as int < 0x80 && IsAscii(y)
    ensures IsAscii(x + [sep] + y)
    ensures AsciiBytes(x + [sep] + y) == AsciiBytes(x) + [sep as int as byte] + AsciiBytes(y)
  {
    AsciiBytesAppend(x, [sep]);
    AsciiBytesAppend(x + [sep], y);
  }

  /** A plain word decodes to itself. */
  lemma UrlDecodeWord(s: string)
    requires PlainValue(s)
    ensures UrlDecode(AsciiBytes(s)) == Ok(s)
  {
    var b := AsciiBytes(s);
    assert PERCENT !in b by {
      forall i | 0 <= i < |b| ensures b[i] != PERCENT { assert s[i] != '%'; }
    }
    assert PlusToSpace(b) == b by {
      forall i | 0 <= i < |b| ensures b[i] != PLUS { assert s[i] != '+'; }
    }
    UrlDecodePlainAscii(b);
    assert Utf8.AsciiText(b) == s;
  }

  /** No byte of a plain word is `&`, and none of a plain name is `=`. */
  lemma PlainBytes(s: string)
    requires PlainValue(s)
    ensures AMPERSAND !in AsciiBytes(s)
    ensures PlainName(s) ==> EQUALS !in AsciiBytes(s)
  {
    var b := AsciiBytes(s);
    forall i | 0 <= i < |b| ensures b[i] != AMPERSAND && (PlainName(s) ==> b[i] != EQUALS) {
      assert s[i] != '&';
    }
  }

  /** `name=value` where the value decodes: one name holding the decoded
      value, or the value's decoding error. */
  lemma Pair(name: string, value: string, body: string)
    requires PlainName(name) && IsAscii(value) && '&' !in value
    requires body == name + "=" + value
    ensures IsAscii(body)
    ensures FromUrlencoded(AsciiBytes(body))
      == if UrlDecode(AsciiBytes(value)).Err? then Err(UrlDecode(AsciiBytes(value)).error)
         else Ok(ValueMap([(name, [Value(UrlDecode(AsciiBytes(value)).value)])]))
  {
    AsciiJoin(name, '=', value);
    var n, v := AsciiBytes(name), AsciiBytes(value);
    PlainBytes(name);
    assert AMPERSAND !in v by {
      forall i | 0 <= i < |v| ensures v[i] != AMPERSAND { assert value[i] != '&'; }
    }
    UrlDecodeWord(name);
    FromUrlencodedPair(n, v);
  }

  /** `name=value` whose value decodes to `text`: a map of length 1 holding
      `[text]` under the name. */
  lemma OnePair(name: string, value: string, body: string, text: string)
    requires PlainName(name) && IsAscii(value) && '&' !in value
    requires body == name + "=" + value
    requires UrlDecode(AsciiBytes(value)) == Ok(text)
    ensures IsAscii(body)
    ensures FromUrlencoded(AsciiBytes(body)).Ok?
    ensures Len(FromUrlencoded(AsciiBytes(body)).value) == 1
    ensures Get(FromUrlencoded(AsciiBytes(body)).value, name) == Some([Value(text)])
  {
    Pair(name, value, body);
    GetSingle(name, [Value(text)], name);
  }

  /** A bare plain name: one name present with no values. */
  lemma Bare(name: string)
    requires PlainName(name) && |name| > 0
    ensures FromUrlencoded(AsciiBytes(name)) == Ok(ValueMap([(name, [])]))
  {
    PlainBytes(name);
    UrlDecodeWord(name);
    FromUrlencodedBare(AsciiBytes(name));
  }

  /** The map of one name holds just that name. */
  lemma SingleEntryKeys(k: string, vs: seq<Value>)
    ensures Keys(ValueMap([(k, vs)])) == {k}
  {
    assert Names([(k, vs)]) == [k];
  }

  /** Two bodies that parse, joined by `&`: the maps they give merged. */
  lemma JoinParsed(x: seq<byte>, y: seq<byte>, mx: ValueMap, my: ValueMap)
    requires FromUrlencoded(x) == Ok(mx) && FromUrlencoded(y) == Ok(my)
    ensures FromUrlencoded(x + [AMPERSAND] + y).Ok?
    ensures Valid(FromUrlencoded(x + [AMPERSAND] + y).value)
    ensures Keys(FromUrlencoded(x + [AMPERSAND] + y).value) == Keys(mx) + Keys(my)
    ensures forall k :: Get(FromUrlencoded(x + [AMPERSAND] + y).value, k) == Merge(Get(mx, k), Get(my, k))
  {
    FromUrlencodedAppend(x, y);
    FromUrlencodedGet(x + [AMPERSAND] + y, "");
  }

  /** The text of two fields joined by `&` is the first field, `&`, and the
      second field. */
  lemma TwoFieldsText(n1: string, v1: string, n2: string, v2: string)
    ensures n1 + "=" + v1 + "&" + n2 + "=" + v2 == (n1 + "=" + v1) + ['&'] + (n2 + "=" + v2)
  {
  }

  /** Two fields `name=value` of plain words joined by `&`: the map holds
      the values of both, merged by name. */
  lemma TwoPairs(n1: string, v1: string, n2: string, v2: string)
    requires PlainName(n1) && PlainValue(v1) && PlainName(n2) && PlainValue(v2)
    ensures IsAscii(n1 + "=" + v1 + "&" + n2 + "=" + v2)
    ensures var r := FromUrlencoded(AsciiBytes(n1 + "=" + v1 + "&" + n2 + "=" + v2));
      && r.Ok?
      && Valid(r.value)
      && Keys(r.value) == {n1, n2}
      && (forall k :: Get(r.value, k)
            == Merge(Get(ValueMap([(n1, [Value(v1)])]), k), Get(ValueMap([(n2, [Value(v2)])]), k)))
  {
    var a, b := n1 + "=" + v1, n2 + "=" + v2;
    var m1, m2 := ValueMap([(n1, [Value(v1)])]), ValueMap([(n2, [Value(v2)])]);
    TwoFieldsText(n1, v1, n2, v2);
    UrlDecodeWord(v1);
    UrlDecodeWord(v2);
    Pair(n1, v1, a);
    Pair(n2, v2, b);
    AsciiJoin(a, '&', b);
    JoinParsed(AsciiBytes(a), AsciiBytes(b), m1, m2);
    SingleEntryKeys(n1, [Value(v1)]);
    SingleEntryKeys(n2, [Value(v2)]);
  }

  /** `n=v1&n=v2`: one key holding both values in input order. */
  lemma SameNameTwice(n: string, v1: string, v2: string, body: string)
    requires PlainName(n) && PlainValue(v1) && PlainValue(v2)
    requires body == n + "=" + v1 + "&" + n + "=" + v2
    ensures IsAscii(body)
    ensures FromUrlencoded(AsciiBytes(body)).Ok?
    ensures Len(FromUrlencoded(AsciiBytes(body)).value) == 1
    ensures Get(FromUrlencoded(AsciiBytes(body)).value, n) == Some([Value(v1), Value(v2)])
  {
    TwoPairs(n, v1, n, v2);
    var m := FromUrlencoded(AsciiBytes(body)).value;
    assert Keys(m) == {n};
    GetSingle(n, [Value(v1)], n);
    GetSingle(n, [Value(v2)], n);
    assert Get(m, n) == Some([Value(v1)] + [Value(v2)]);
    assert [Value(v1)] + [Value(v2)] == [Value(v1), Value(v2)];
  }

  /** `n1=v1&n2=v2` with different names: two keys, each holding only its
      own value. */
  lemma DistinctNames(n1: string, v1: string, n2: string, v2: string, body: string)
    requires n1 != n2
    requires PlainName(n1) && PlainValue(v1) && PlainName(n2) && PlainValue(v2)
    requires body == n1 + "=" + v1 + "&" + n2 + "=" + v2
    ensures IsAscii(body)
    ensures FromUrlencoded(AsciiBytes(body)).Ok?
    ensures Len(FromUrlencoded(AsciiBytes(body)).value) == 2
    ensures Get(FromUrlencoded(AsciiBytes(body)).value, n1) == Some([Value(v1)])
    ensures Get(FromUrlencoded(AsciiBytes(body)).value, n2) == Some([Value(v2)])
  {
    TwoPairs(n1, v1, n2, v2);
    var m := FromUrlencoded(AsciiBytes(body)).value;
    assert |{n1, n2}| == 2;
    GetSingle(n1, [Value(v1)], n1);
    GetSingle(n1, [Value(v1)], n2);
    GetSingle(n2, [Value(v2)], n1);
    GetSingle(n2, [Value(v2)], n2);
  }

  /** Plain words around one escape `%XX` of an ASCII byte: the escape
      decodes to that byte's character and the words to themselves. */
  lemma EscapeBetween(x: string, hi: byte, lo: byte, y: string)
    requires PlainValue(x) && PlainValue(y)
    requires IsHexDigit(hi) && IsHexDigit(lo) && HexValue(hi) * 16 + HexValue(lo) < 0x80
    ensures UrlDecode(AsciiBytes(x) + [PERCENT, hi, lo] + AsciiBytes(y))
      == Ok(x + [(HexValue(hi) * 16 + HexValue(lo)) as char] + y)
  {
    var c := (HexValue(hi) * 16 + HexValue(lo)) as char;
    var bx, yb := AsciiBytes(x), AsciiBytes(y);
    var esc: seq<byte> := [PERCENT, hi, lo];
    assert PercentDecode(bx) == Ok(bx) && PercentDecode(yb) == Ok(yb) by {
      UrlDecodeWord(x);
      UrlDecodeWord(y);
      assert PERCENT !in bx && PERCENT !in yb by {
        forall i | 0 <= i < |bx| ensures bx[i] != PERCENT { assert x[i] != '%'; }
        forall i | 0 <= i < |yb| ensures yb[i] != PERCENT { assert y[i] != '%'; }
      }
      assert PlusToSpace(bx) == bx by {
        forall i | 0 <= i < |bx| ensures bx[i] != PLUS { assert x[i] != '+'; }
      }
      assert PlusToSpace(yb) == yb by {
        forall i | 0 <= i < |yb| ensures yb[i] != PLUS { assert y[i] != '+'; }
      }
      PercentDecodePlain(bx);
      PercentDecodePlain(yb);
    }
    PercentDecodeEscape(hi, lo);
    var t := x + [c] + y;
    AsciiJoin(x, c, y);
    var decoded := AsciiBytes(t);
    assert PercentDecode(bx + esc + yb) == Ok(decoded) by {
      PercentDecodeAppend(bx, esc);
      PercentDecodeAppend(bx + esc, yb);
    }
    assert Utf8.Decode(decoded) == Some(t) by {
      Utf8.DecodeAscii(decoded);
      assert Utf8.AsciiText(decoded) == t;
    }
  }

  // Facts about the literal texts of the test cases: that the words are
  // plain and how the bodies are spelled. They state nothing about the
  // library; each exists so that the case lemmas below reason about the
  // general lemmas above and never unfold a literal themselves.

  /** The words of the test cases are plain. */
  lemma PlainWords()
    ensures PlainName("foo") && PlainName("bar") && PlainValue("1") && PlainValue("2")
  {
  }

  /** The body `foo=1&foo=2`, field by field. */
  lemma FooTwiceText()
    ensures "foo" + "=" + "1" + "&" + "foo" + "=" + "2" == "foo=1&foo=2"
  {
  }

  /** The body `foo=1&bar=2`, field by field, with two different names. */
  lemma FooBarText()
    ensures "foo" != "bar"
    ensures "foo" + "=" + "1" + "&" + "bar" + "=" + "2" == "foo=1&bar=2"
  {
    assert "foo"[0] != "bar"[0];
  }

  /** `foo%20bar`: the word `foo`, the escape of a space, the word `bar`. */
  lemma FooSpaceBarText()
    ensures IsAscii("foo%20bar")
    ensures AsciiBytes("foo%20bar") == AsciiBytes("foo") + [PERCENT, 0x32, 0x30] + AsciiBytes("bar")
    ensures IsHexDigit(0x32) && IsHexDigit(0x30) && HexValue(0x32) * 16 + HexValue(0x30) == 0x20
    ensures "foo" + [0x20 as char] + "bar" == "foo bar"
  {
    assert AsciiBytes("foo") == [0x66, 0x6F, 0x6F] && AsciiBytes("bar") == [0x62, 0x61, 0x72];
    assert AsciiBytes("foo%20bar") == [0x66, 0x6F, 0x6F, PERCENT, 0x32, 0x30, 0x62, 0x61, 0x72];
  }

  /** The body `foo=foo%20bar`: the name `foo` and an ASCII value without `&`. */
  lemma FooSpaceBarPairText()
    ensures IsAscii("foo%20bar") && '&' !in "foo%20bar"
    ensures "foo" + "=" + "foo%20bar" == "foo=foo%20bar"
  {
  }

  /** `foo%2xbar`: `%2x` is not an escape. */
  lemma FooBadEscapeText()
    ensures IsAscii("foo%2xbar") && '&' !in "foo%2xbar"
    ensures !WellEncoded(AsciiBytes("foo%2xbar"))
  {
    var b := AsciiBytes("foo%2xbar");
    assert b[3] == PERCENT && !IsHexDigit(b[5]);
  }

  /** `foo+bar` is ASCII without `%`, and reads as `foo bar`. */
  lemma FooPlusBarText()
    ensures IsAscii("foo+bar")
    ensures PERCENT !in AsciiBytes("foo+bar")
    ensures forall i :: 0 <= i < |AsciiBytes("foo+bar")| ==> AsciiBytes("foo+bar")[i] < 0x80
    ensures Utf8.AsciiText(PlusToSpace(AsciiBytes("foo+bar"))) == "foo bar"
  {
    var b: seq<byte> := [0x66, 0x6F, 0x6F, PLUS, 0x62, 0x61, 0x72];
    assert AsciiBytes("foo+bar") == b;
    assert PlusToSpace(b) == [0x66, 0x6F, 0x6F, SPACE, 0x62, 0x61, 0x72];
  }

  // The test cases.

  /** tests/value.rs:5-8: `foo=1` gives one key holding `["1"]`. */
  lemma OneKeyOneValue()
    ensures IsAscii("foo=1")
    ensures FromUrlencoded(AsciiBytes("foo=1")).Ok?
    ensures Len(FromUrlencoded(AsciiBytes("foo=1")).value) == 1
    ensures Get(FromUrlencoded(AsciiBytes("foo=1")).value, "foo") == Some([Value("1")])
  {
    PlainWords();
    assert "foo" + "=" + "1" == "foo=1";
    UrlDecodeWord("1");
    Pair("foo", "1", "foo=1");
    GetSingle("foo", [Value("1")], "foo");
  }

  /** tests/value.rs:13-15: a bare `foo` gives one key present with no
      values, not absent and not holding an empty string. */
  lemma OneKeyNoValue()
    ensures IsAscii("foo")
    ensures FromUrlencoded(AsciiBytes("foo")).Ok?
    ensures Len(FromUrlencoded(AsciiBytes("foo")).value) == 1
    ensures Get(FromUrlencoded(AsciiBytes("foo")).value, "foo") == Some([])
  {
    PlainWords();
    Bare("foo");
    GetSingle("foo", [], "foo");
  }

  /** tests/value.rs:20-24: `foo=1&foo=2` gives one key holding both values
      in input order. */
  lemma OneKeyTwoValues()
    ensures IsAscii("foo=1&foo=2")
    ensures FromUrlencoded(AsciiBytes("foo=1&foo=2")).Ok?
    ensures Len(FromUrlencoded(AsciiBytes("foo=1&foo=2")).value) == 1
    ensures Get(FromUrlencoded(AsciiBytes("foo=1&foo=2")).value, "foo") == Some([Value("1"), Value("2")])
  {
    PlainWords();
    FooTwiceText();
    SameNameTwice("foo", "1", "2", "foo=1&foo=2");
  }

  /** tests/value.rs:29-34: `foo=1&bar=2` gives two keys, each holding only
      its own value. */
  lemma TwoKeys()
    ensures IsAscii("foo=1&bar=2")
    ensures FromUrlencoded(AsciiBytes("foo=1&bar=2")).Ok?
    ensures Len(FromUrlencoded(AsciiBytes("foo=1&bar=2")).value) == 2
    ensures Get(FromUrlencoded(AsciiBytes("foo=1&bar=2")).value, "foo") == Some([Value("1")])
    ensures Get(FromUrlencoded(AsciiBytes("foo=1&bar=2")).value, "bar") == Some([Value("2")])
  {
    PlainWords();
    FooBarText();
    DistinctNames("foo", "1", "bar", "2", "foo=1&bar=2");
  }

  /** `foo%20bar` decodes to the text `foo bar`. */
  lemma DecodeFooSpaceBar()
    ensures IsAscii("foo%20bar")
    ensures UrlDecode(AsciiBytes("foo%20bar")) == Ok("foo bar")
  {
    PlainWords();
    FooSpaceBarText();
    EscapeBetween("foo", 0x32, 0x30, "bar");
  }

  /** tests/value.rs:39-42: `%20` in a value decodes to a space and the rest
      of the value is unchanged. */
  lemma EncodedCorrectly()
    ensures IsAscii("foo=foo%20bar")
    ensures FromUrlencoded(AsciiBytes("foo=foo%20bar")).Ok?
    ensures Len(FromUrlencoded(AsciiBytes("foo=foo%20bar")).value) == 1
    ensures Get(FromUrlencoded(AsciiBytes("foo=foo%20bar")).value, "foo") == Some([Value("foo bar")])
  {
    PlainWords();
    FooSpaceBarPairText();
    DecodeFooSpaceBar();
    OnePair("foo", "foo%20bar", "foo=foo%20bar", "foo bar");
  }

  /** `foo%2xbar` is not well encoded: `%2x` is not an escape. */
  lemma DecodeFooBadEscape()
    ensures IsAscii("foo%2xbar")
    ensures UrlDecode(AsciiBytes("foo%2xbar")) == Err(UrlDecodingError(InvalidSequence))
  {
    FooBadEscapeText();
    UrlDecodeMalformed(AsciiBytes("foo%2xbar"));
  }

  /** tests/value.rs:47-49: `%2x` is not an escape, so the whole parse fails
      with "invalid encoding sequence". */
  lemma EncodedInvalidChar()
    ensures IsAscii("foo=foo%2xbar")
    ensures FromUrlencoded(AsciiBytes("foo=foo%2xbar")) == Err(UrlDecodingError("invalid encoding sequence"))
  {
    PlainWords();
    FooBadEscapeText();
    assert "foo" + "=" + "foo%2xbar" == "foo=foo%2xbar";
    DecodeFooBadEscape();
    Pair("foo", "foo%2xbar", "foo=foo%2xbar");
  }

  /** `%C3=%2x` holds a malformed `%`, yet the parse fails with the UTF-8
      error: the name decodes to the lone byte C3, and its error comes first. */
  lemma Utf8ErrorFirst()
    ensures var body: seq<byte> := [PERCENT, 0x43, 0x33, EQUALS, PERCENT, 0x32, 0x78];
      !WellEncoded(body) && FromUrlencoded(body) == Err(UrlDecodingError(InvalidUtf8))
  {
    var name: seq<byte> := [PERCENT, 0x43, 0x33];
    var value: seq<byte> := [PERCENT, 0x32, 0x78];
    var body := name + [EQUALS] + value;
    assert body[4] == PERCENT && !IsHexDigit(body[6]);
    PercentDecodeEscape(0x43, 0x33);
    assert PercentDecode(name) == Ok([0xC3]);
    assert Utf8.Decode([0xC3]) == None;
    assert UrlDecode(name) == Err(UrlDecodingError(InvalidUtf8));
    FromUrlencodedPair(name, value);
    assert body == [PERCENT, 0x43, 0x33, EQUALS, PERCENT, 0x32, 0x78];
  }

  /** tests/value.rs:54: `urldecode` reads `+` as a space. */
  lemma UrldecodePlus()
    ensures IsAscii("foo+bar")
    ensures UrlDecode(AsciiBytes("foo+bar")) == Ok("foo bar")
  {
    FooPlusBarText();
    UrlDecodePlainAscii(AsciiBytes("foo+bar"));
  }
}
