/** `ValueMap::from_urlencoded`: an `application/x-www-form-urlencoded` body
    split on `&` into fields, each field split on its first `=` into a name
    and a value, both decoded by `urldecode`. */
module Urlencoded {
  import opened Bytes
  import opened Results
  import opened UrlDecoding
  import opened ValueMaps

  /** The first position of `x` in `s`, if any. */
  function IndexOf(s: seq<byte>, x: byte): (r: Option<nat>)
    ensures r.None? ==> x !in s
    ensures r.Some? ==> r.value < |s| && s[r.value] == x && x !in s[..r.value]
  {
    if |s| == 0 then None
    else if s[0] == x then Some(0)
    else
      match IndexOf(s[1..], x)
      case None => None
      case Some(i) =>
        assert s[..i + 1] == [s[0]] + s[1..][..i];
        Some(i + 1)
  }

  /** The pieces joined back together with `sep` between them. */
  function Join(ps: seq<seq<byte>>, sep: byte): seq<byte> {
    if |ps| == 0 then []
    else if |ps| == 1 then ps[0]
    else ps[0] + [sep] + Join(ps[1..], sep)
  }

  /** `s` cut at every `sep`: at least one piece, no piece contains `sep`,
      and joining the pieces with `sep` gives `s` back. */
  function Split(s: seq<byte>, sep: byte): (r: seq<seq<byte>>)
    ensures |r| >= 1
    ensures forall i :: 0 <= i < |r| ==> sep !in r[i]
    ensures Join(r, sep) == s
    decreases |s|
  {
    match IndexOf(s, sep)
    case None => [s]
    case Some(i) =>
      var rest := Split(s[i + 1..], sep);
      assert s == s[..i] + [sep] + s[i + 1..];
      [s[..i]] + rest
  }

  /** `seg` cut at its first `=`: the name before it, and the value after it
      when there is one. */
  function SplitFirst(seg: seq<byte>): (r: (seq<byte>, Option<seq<byte>>))
    ensures EQUALS !in r.0
    ensures r.1.None? ==> r.0 == seg
    ensures r.1.Some? ==> seg == r.0 + [EQUALS] + r.1.value
  {
    match IndexOf(seg, EQUALS)
    case None => (seg, None)
    case Some(i) =>
      assert seg == seg[..i] + [EQUALS] + seg[i + 1..];
      (seg[..i], Some(seg[i + 1..]))
  }

  /** One field: `name=value` gives the decoded name with the one decoded
      value, a bare `name` gives the decoded name with no value. */
  function ParseField(seg: seq<byte>): (r: Result<Field, UrlDecodingError>)
    ensures r.Ok? <==>
      && UrlDecode(SplitFirst(seg).0).Ok?
      && (SplitFirst(seg).1.Some? ==> UrlDecode(SplitFirst(seg).1.value).Ok?)
    ensures r.Ok? ==> |r.value.1| <= 1 && (|r.value.1| == 1 <==> EQUALS in seg)
    ensures !WellEncoded(seg) ==> r.Err?
    ensures r.Err? ==> r.error.message == InvalidSequence || r.error.message == InvalidUtf8
  {
    ParseFieldWellEncoded(seg);
    var (rawName, rawValue) := SplitFirst(seg);
    var name :- UrlDecode(rawName);
    match rawValue
    case None => Ok((name, []))
    case Some(v) =>
      var value :- UrlDecode(v);
      Ok((name, [Value(value)]))
  }

  /** A segment whose name and value both decode is well encoded: a `%`
      without two hex digits after it makes the name or the value fail. */
  lemma ParseFieldWellEncoded(seg: seq<byte>)
    ensures var (n, v) := SplitFirst(seg);
      UrlDecode(n).Ok? && (v.Some? ==> UrlDecode(v.value).Ok?) ==> WellEncoded(seg)
  {
    var (n, v) := SplitFirst(seg);
    if UrlDecode(n).Ok? && (v.Some? ==> UrlDecode(v.value).Ok?) {
      PercentDecodeOkIff(n);
      if v.Some? {
        PercentDecodeOkIff(v.value);
        WellEncodedJoin(n, EQUALS, v.value);
      }
    }
  }

  /** The fields of the segments, in order; empty segments carry no field. */
  function ParseFields(segs: seq<seq<byte>>): (r: Result<seq<Field>, UrlDecodingError>)
    ensures r.Ok? ==> |r.value| <= |segs|
    ensures r.Err? ==> r.error.message == InvalidSequence || r.error.message == InvalidUtf8
  {
    if |segs| == 0 then Ok([])
    else if |segs[0]| == 0 then ParseFields(segs[1..])
    else
      var f :- ParseField(segs[0]);
      var rest :- ParseFields(segs[1..]);
      Ok([f] + rest)
  }

  /** The fields of an encoded body, in order. */
  function Fields(body: seq<byte>): Result<seq<Field>, UrlDecodingError> {
    ParseFields(Split(body, AMPERSAND))
  }

  /** `ValueMap::from_urlencoded`: the map the body's fields build, or the
      first decoding error; never a partial map. */
  function FromUrlencoded(body: seq<byte>): (r: Result<ValueMap, UrlDecodingError>)
    ensures r.Ok? <==> Fields(body).Ok?
    ensures r.Ok? ==> Valid(r.value) && Keys(r.value) == set x | x in Names(Fields(body).value)
    ensures r.Err? ==> r.error.message == InvalidSequence || r.error.message == InvalidUtf8
  {
    var fields :- Fields(body);
    BuildNames(fields);
    BuildKeys(fields);
    Ok(Build(fields))
  }

  /** A body without `sep` is one piece. */
  lemma SplitWithout(s: seq<byte>, sep: byte)
    requires sep !in s
    ensures Split(s, sep) == [s]
  {
  }

  /** Cutting `a`, a separator, then `b` cuts `a` and `b` separately. */
  lemma {:induction false} SplitAppend(a: seq<byte>, b: seq<byte>, sep: byte)
    ensures Split(a + [sep] + b, sep) == Split(a, sep) + Split(b, sep)
    decreases |a|
  {
    var ia := IndexOf(a, sep);
    if ia.None? {
      SplitBeforeSep(a, b, sep);
    } else {
      var i := ia.value;
      SplitInside(a, b, sep, i);
      SplitAppend(a[i + 1..], b, sep);
      ConsAssoc(a[..i], Split(a[i + 1..], sep), Split(b, sep));
    }
  }

  /** When `a` has no separator, the separator after it ends the first piece. */
  lemma SplitBeforeSep(a: seq<byte>, b: seq<byte>, sep: byte)
    requires sep !in a
    ensures Split(a, sep) == [a]
    ensures Split(a + [sep] + b, sep) == [a] + Split(b, sep)
  {
    var s := a + [sep] + b;
    assert s[..|a|] == a && s[|a| + 1..] == b;
    SplitAt(s, sep, |a|);
  }

  /** When `a` has its first separator at `i`, so does `a + [sep] + b`. */
  lemma SplitInside(a: seq<byte>, b: seq<byte>, sep: byte, i: nat)
    requires i < |a| && a[i] == sep && sep !in a[..i]
    ensures Split(a, sep) == [a[..i]] + Split(a[i + 1..], sep)
    ensures Split(a + [sep] + b, sep) == [a[..i]] + Split(a[i + 1..] + [sep] + b, sep)
  {
    var s := a + [sep] + b;
    assert s[..i] == a[..i] && s[i + 1..] == a[i + 1..] + [sep] + b;
    SplitAt(a, sep, i);
    SplitAt(s, sep, i);
  }

  /** Consing onto a concatenation. */
  lemma ConsAssoc<T>(x: T, p: seq<T>, q: seq<T>)
    ensures [x] + (p + q) == ([x] + p) + q
  {
  }

  /** Cutting at the first separator, at position `i`. */
  lemma SplitAt(s: seq<byte>, sep: byte, i: nat)
    requires i < |s| && s[i] == sep && sep !in s[..i]
    ensures Split(s, sep) == [s[..i]] + Split(s[i + 1..], sep)
  {
    IndexOfUnique(s, sep, i);
  }

  /** The first occurrence is determined by position alone. */
  lemma IndexOfUnique(s: seq<byte>, x: byte, i: nat)
    requires i < |s| && s[i] == x && x !in s[..i]
    ensures IndexOf(s, x) == Some(i)
  {
    assert x in s by { assert s[i] == x; }
  }

  /** Parsing succeeds exactly when every non-empty segment parses. */
  lemma {:induction false} ParseFieldsOkIff(segs: seq<seq<byte>>)
    ensures ParseFields(segs).Ok?
      <==> forall i :: 0 <= i < |segs| && |segs[i]| > 0 ==> ParseField(segs[i]).Ok?
  {
    if |segs| > 0 {
      ParseFieldsOkIff(segs[1..]);
      assert forall i :: 1 <= i < |segs| ==> segs[i] == segs[1..][i - 1];
    }
  }

  /** Segment `i` is the first non-empty segment that fails to parse, and it
      fails with `e`. */
  predicate FirstErrorAt(segs: seq<seq<byte>>, i: nat, e: UrlDecodingError) {
    && i < |segs| && |segs[i]| > 0
    && ParseField(segs[i]) == Err(e)
    && forall j :: 0 <= j < i && |segs[j]| > 0 ==> ParseField(segs[j]).Ok?
  }

  /** A first failure among the segments after a segment that does not fail
      is the first failure of them all. */
  lemma FirstErrorShift(segs: seq<seq<byte>>, i: nat, e: UrlDecodingError)
    requires |segs| > 0 && !(|segs[0]| > 0 && ParseField(segs[0]).Err?)
    requires FirstErrorAt(segs[1..], i, e)
    ensures FirstErrorAt(segs, i + 1, e)
  {
    assert forall j :: 1 <= j < i + 1 ==> segs[j] == segs[1..][j - 1];
  }

  /** A failure past a segment that does not fail is the failure of the rest. */
  lemma ParseFieldsTailError(segs: seq<seq<byte>>)
    requires ParseFields(segs).Err? && !(|segs[0]| > 0 && ParseField(segs[0]).Err?)
    ensures ParseFields(segs[1..]).Err? && ParseFields(segs[1..]).error == ParseFields(segs).error
  {
  }

  /** Pieces that are all well encoded, joined by a byte other than `%`,
      give a well-encoded text. */
  lemma {:induction false} JoinWellEncoded(ps: seq<seq<byte>>, sep: byte)
    requires sep != PERCENT
    requires forall i :: 0 <= i < |ps| ==> WellEncoded(ps[i])
    ensures WellEncoded(Join(ps, sep))
  {
    if |ps| > 1 {
      JoinWellEncoded(ps[1..], sep);
      WellEncodedJoin(ps[0], sep, Join(ps[1..], sep));
    }
  }

  /** A `%` without two hex digits after it anywhere in the body fails the
      whole parse: it lies in one of the `&`-segments, and that segment
      fails. */
  lemma FromUrlencodedMalformed(body: seq<byte>)
    requires !WellEncoded(body)
    ensures FromUrlencoded(body).Err?
  {
    var segs := Split(body, AMPERSAND);
    if forall i :: 0 <= i < |segs| ==> WellEncoded(segs[i]) {
      JoinWellEncoded(segs, AMPERSAND);
      assert false;
    }
    var i :| 0 <= i < |segs| && !WellEncoded(segs[i]);
    assert |segs[i]| > 0;
    ParseFieldsOkIff(segs);
  }

  /** The name and the value of `seg` are UTF-8 whenever they percent-decode. */
  predicate PartsUtf8(seg: seq<byte>) {
    var (n, v) := SplitFirst(seg);
    Utf8IfDecodes(n) && (v.Some? ==> Utf8IfDecodes(v.value))
  }

  /** No `&`-segment of `body` holds a name or value that percent-decodes to
      bytes that are not UTF-8. */
  predicate NoUtf8Error(body: seq<byte>) {
    forall seg :: seg in Split(body, AMPERSAND) ==> PartsUtf8(seg)
  }

  /** A segment whose parts are UTF-8 can only fail on a malformed `%`. */
  lemma ParseFieldMessage(seg: seq<byte>)
    requires PartsUtf8(seg) && ParseField(seg).Err?
    ensures ParseField(seg).error.message == InvalidSequence
  {
    var (n, v) := SplitFirst(seg);
    if UrlDecode(n).Err? {
      assert ParseField(seg).error == UrlDecode(n).error;
    } else {
      assert ParseField(seg).error == UrlDecode(v.value).error;
    }
  }

  /** With no UTF-8 error anywhere to come first, a malformed `%` in the body
      fails the parse with "invalid encoding sequence". */
  lemma FromUrlencodedMalformedMessage(body: seq<byte>)
    requires !WellEncoded(body) && NoUtf8Error(body)
    ensures FromUrlencoded(body) == Err(UrlDecodingError(InvalidSequence))
  {
    FromUrlencodedMalformed(body);
    FromUrlencodedFirstError(body);
    var segs, e := Split(body, AMPERSAND), FromUrlencoded(body).error;
    var i: nat :| FirstErrorAt(segs, i, e);
    assert segs[i] in segs;
    ParseFieldMessage(segs[i]);
  }

  /** A failed parse reports the error of the first non-empty segment that
      fails to parse. */
  lemma {:induction false} ParseFieldsFirstError(segs: seq<seq<byte>>)
    requires ParseFields(segs).Err?
    ensures exists i :: FirstErrorAt(segs, i, ParseFields(segs).error)
  {
    if |segs[0]| > 0 && ParseField(segs[0]).Err? {
      assert FirstErrorAt(segs, 0, ParseFields(segs).error);
    } else {
      ParseFieldsTailError(segs);
      ParseFieldsFirstError(segs[1..]);
      var i :| FirstErrorAt(segs[1..], i, ParseFields(segs[1..]).error);
      FirstErrorShift(segs, i, ParseFields(segs).error);
    }
  }

  /** Two runs of segments parse separately; the first error wins. */
  lemma {:induction false} ParseFieldsAppend(x: seq<seq<byte>>, y: seq<seq<byte>>)
    ensures ParseFields(x + y)
      == if ParseFields(x).Err? then ParseFields(x)
         else if ParseFields(y).Err? then ParseFields(y)
         else Ok(ParseFields(x).value + ParseFields(y).value)
  {
    if |x| == 0 {
      assert x + y == y;
      if ParseFields(y).Ok? {
        assert [] + ParseFields(y).value == ParseFields(y).value;
      }
    } else {
      assert (x + y)[0] == x[0] && (x + y)[1..] == x[1..] + y;
      ParseFieldsAppend(x[1..], y);
      if |x[0]| > 0 && ParseField(x[0]).Ok? && ParseFields(x[1..]).Ok? && ParseFields(y).Ok? {
        var f, u, v := ParseField(x[0]).value, ParseFields(x[1..]).value, ParseFields(y).value;
        assert [f] + (u + v) == ([f] + u) + v;
      }
    }
  }

  /** The fields of `a & b` are those of `a` followed by those of `b`; the
      first error wins. */
  lemma FieldsAppend(a: seq<byte>, b: seq<byte>)
    ensures Fields(a + [AMPERSAND] + b)
      == if Fields(a).Err? then Fields(a)
         else if Fields(b).Err? then Fields(b)
         else Ok(Fields(a).value + Fields(b).value)
  {
    SplitAppend(a, b, AMPERSAND);
    ParseFieldsAppend(Split(a, AMPERSAND), Split(b, AMPERSAND));
  }

  /** `name=value` with no `=` in the name parses to the decoded pair. */
  lemma ParseFieldPair(name: seq<byte>, value: seq<byte>)
    requires EQUALS !in name
    ensures ParseField(name + [EQUALS] + value)
      == if UrlDecode(name).Err? then Err(UrlDecode(name).error)
         else if UrlDecode(value).Err? then Err(UrlDecode(value).error)
         else Ok((UrlDecode(name).value, [Value(UrlDecode(value).value)]))
  {
    var seg := name + [EQUALS] + value;
    assert seg[|name|] == EQUALS && seg[..|name|] == name && seg[|name| + 1..] == value;
    IndexOfUnique(seg, EQUALS, |name|);
  }

  /** A bare `name` parses to the decoded name with no value. */
  lemma ParseFieldBare(name: seq<byte>)
    requires EQUALS !in name
    ensures ParseField(name)
      == if UrlDecode(name).Err? then Err(UrlDecode(name).error) else Ok((UrlDecode(name).value, []))
  {
  }

  /** A body of non-empty segments parses exactly when every segment does. */
  lemma FromUrlencodedOkIff(body: seq<byte>)
    ensures FromUrlencoded(body).Ok?
      <==> forall seg :: seg in Split(body, AMPERSAND) && |seg| > 0 ==> ParseField(seg).Ok?
  {
    var segs := Split(body, AMPERSAND);
    ParseFieldsOkIff(segs);
    assert forall seg :: seg in segs <==> exists i :: 0 <= i < |segs| && segs[i] == seg;
  }

  /** A failed parse reports the error of the first non-empty segment that
      fails to parse. */
  lemma FromUrlencodedFirstError(body: seq<byte>)
    requires FromUrlencoded(body).Err?
    ensures exists i :: FirstErrorAt(Split(body, AMPERSAND), i, FromUrlencoded(body).error)
  {
    ParseFieldsFirstError(Split(body, AMPERSAND));
  }

  /** What a parsed body holds: unique names, and under each name the values
      of all the fields with that name, in order, or `None` when no field has
      it; `len` counts the distinct names. */
  lemma FromUrlencodedGet(body: seq<byte>, k: string)
    requires FromUrlencoded(body).Ok?
    ensures Valid(FromUrlencoded(body).value)
    ensures Get(FromUrlencoded(body).value, k)
      == if k in Names(Fields(body).value) then Some(ValuesFor(Fields(body).value, k)) else None
    ensures Len(FromUrlencoded(body).value) == |set x | x in Names(Fields(body).value)|
  {
    BuildNames(Fields(body).value);
    BuildGet(Fields(body).value, k);
    BuildLen(Fields(body).value);
  }

  /** The body `a & b` parses when `a` and `b` both do, and then every name
      holds its values from `a` followed by its values from `b` (so values of
      a repeated name accumulate in order); otherwise the first error wins. */
  lemma FromUrlencodedAppend(a: seq<byte>, b: seq<byte>)
    ensures FromUrlencoded(a + [AMPERSAND] + b).Ok? <==> FromUrlencoded(a).Ok? && FromUrlencoded(b).Ok?
    ensures FromUrlencoded(a).Err? ==> FromUrlencoded(a + [AMPERSAND] + b) == Err(FromUrlencoded(a).error)
    ensures FromUrlencoded(a).Ok? && FromUrlencoded(b).Err?
      ==> FromUrlencoded(a + [AMPERSAND] + b) == Err(FromUrlencoded(b).error)
    ensures FromUrlencoded(a).Ok? && FromUrlencoded(b).Ok? ==>
      forall k :: Get(FromUrlencoded(a + [AMPERSAND] + b).value, k)
        == Merge(Get(FromUrlencoded(a).value, k), Get(FromUrlencoded(b).value, k))
    ensures FromUrlencoded(a).Ok? && FromUrlencoded(b).Ok? ==>
      Keys(FromUrlencoded(a + [AMPERSAND] + b).value) == Keys(FromUrlencoded(a).value) + Keys(FromUrlencoded(b).value)
  {
    FieldsAppend(a, b);
    if Fields(a).Ok? && Fields(b).Ok? {
      BuildAppend(Fields(a).value, Fields(b).value);
    }
  }

  /** A body that is one non-empty segment gives a map of that one field,
      or that field's error. */
  lemma FromUrlencodedField(seg: seq<byte>)
    requires |seg| > 0 && AMPERSAND !in seg
    ensures FromUrlencoded(seg)
      == if ParseField(seg).Err? then Err(ParseField(seg).error) else Ok(ValueMap([ParseField(seg).value]))
  {
    SplitWithout(seg, AMPERSAND);
    assert [seg][0] == seg && [seg][1..] == [];
    assert ParseFields([seg][1..]) == Ok([]);
    if ParseField(seg).Ok? {
      var f := ParseField(seg).value;
      assert [f] + [] == [f];
      assert Build([f]) == ValueMap([f]) by {
        assert [f][..0] == [];
        assert Build([f][..0]) == ValueMap([]);
      }
    }
  }

  /** `name=value` alone gives a map of one name holding exactly that value,
      or the error of decoding the name, else of decoding the value. */
  lemma FromUrlencodedPair(name: seq<byte>, value: seq<byte>)
    requires AMPERSAND !in name && AMPERSAND !in value && EQUALS !in name
    ensures FromUrlencoded(name + [EQUALS] + value)
      == if UrlDecode(name).Err? then Err(UrlDecode(name).error)
         else if UrlDecode(value).Err? then Err(UrlDecode(value).error)
         else Ok(ValueMap([(UrlDecode(name).value, [Value(UrlDecode(value).value)])]))
  {
    var seg := name + [EQUALS] + value;
    assert AMPERSAND !in seg by {
      assert forall i :: 0 <= i < |seg| ==> seg[i] == (if i < |name| then name[i] else if i == |name| then EQUALS else value[i - |name| - 1]);
    }
    ParseFieldPair(name, value);
    FromUrlencodedField(seg);
  }

  /** A bare `name` alone gives a map of one name present with no values
      (neither absent nor holding an empty string), or the name's decoding
      error. */
  lemma FromUrlencodedBare(name: seq<byte>)
    requires |name| > 0 && AMPERSAND !in name && EQUALS !in name
    ensures FromUrlencoded(name)
      == if UrlDecode(name).Err? then Err(UrlDecode(name).error) else Ok(ValueMap([(UrlDecode(name).value, [])]))
  {
    ParseFieldBare(name);
    FromUrlencodedField(name);
  }

  /** An empty body has no fields. */
  lemma FromUrlencodedEmpty()
    ensures FromUrlencoded([]) == Ok(ValueMap([]))
  {
    var empty: seq<byte> := [];
    SplitWithout(empty, AMPERSAND);
    assert [empty][1..] == [];
    assert ParseFields([empty][1..]) == Ok([]);
    assert Fields(empty) == Ok([]);
  }
}
