# es-htmlform value layer in Dafny

This project models the value layer of `es-htmlform`, a Rust library that builds
HTML forms and checks submitted values. The layer has three pure parts:

- `urldecode` decodes one component of an `application/x-www-form-urlencoded`
  body:
  - `+` becomes a space.
  - `%XX` becomes the byte with hex value `XX`, as in section 2.1 of RFC 3986.
  - A `%` that is not followed by two hex digits is the error
    `UrlDecodingError("invalid encoding sequence")`.
  - The decoded bytes must then be UTF-8 (RFC 3629) to form the resulting
    `String`.
- `ValueMap::from_urlencoded` parses a form body into a `ValueMap`:
  - The body is split on `&`, and each segment is split on its first `=`.
  - Both halves are decoded with `urldecode`.
  - The values of a repeated name accumulate in input order.
  - A bare name (no `=`) is a present key with no values.
  - Any decoding error fails the whole parse, and no partial map is returned.
- Deserialising a `ValueMap` from JSON flattens the fields of an object into
  sequences of text values:
  - a string gives itself;
  - an integer gives its decimal text;
  - `true`/`false` give `"on"`/`"off"`;
  - `null` gives nothing;
  - an array gives the concatenation of its elements' values.

`ValueMap::len`, `ValueMap::get` and `ValueMap::values` are modelled as `Len` and `Get`.

All the behaviour is taken from the library's test suite, `tests/value.rs`. The
implementation module `es_htmlform::value` is not part of this model. So the
model is a behavioural specification, and each test case is a concrete lemma
(modules `UrlencodedCases` and `JsonCases`). General lemmas lift the cases to
all inputs:
- repeated names concatenate;
- a bare name maps to the empty sequence;
- an error anywhere means `Err`, and the first error wins;
- a one-element array normalises like its element;
- decoding undoes a reference percent-encoder.

Modules, one per file:

| file | module | contents |
|---|---|---|
| results.dfy | `Results` | `Option` and `Result` with failure propagation (`:-`) |
| bytes.dfy | `Bytes` | the `byte` type, the ASCII constants the parser uses, ASCII strings as bytes |
| utf8.dfy | `Utf8` | UTF-8 encoding and strict decoding (RFC 3629, section 3 and the table in section 4) |
| url_decode.dfy | `UrlDecoding` | percent and plus decoding, `urldecode`, a reference encoder |
| value_map.dfy | `ValueMaps` | `Value`, `ValueMap`, `Len`, `Get`, and `Build`, which accumulates fields into a map |
| urlencoded.dfy | `Urlencoded` | splitting on `&` and `=`, `from_urlencoded` |
| decimal.dfy | `Decimal` | decimal text of integers and its parser |
| json_values.dfy | `JsonValues` | the parsed JSON value and its normalisation into a `ValueMap` |
| urlencoded_cases.dfy | `UrlencodedCases` | the `from_urlencoded` and `urldecode` test cases |
| json_cases.dfy | `JsonCases` | the JSON deserialisation test cases |

Choices the tests leave open. Each is an assumption of this model:
- A `ValueMap` keeps its names in the order they were first seen.
- Empty segments between `&`s are skipped, so an empty body gives an empty map (`Urlencoded.FromUrlencodedEmpty`).
- A repeated JSON key accumulates values the same way a repeated form name does.
- A `null` inside an array contributes no value.
- A nested array or object inside a field is an error. So is a top-level JSON
  value that is not an object.
- A body that decodes to bytes that are not UTF-8 fails with
  `UrlDecodingError("invalid utf-8 sequence")`.
- The first failing name or value decides the error, whichever kind it is.
  So `%C3=%2x` fails with the UTF-8 error: its name decodes to the lone byte
  C3 before the malformed `%2x` of its value is reached (`UrlencodedCases.Utf8ErrorFirst`).

## Model

| member | source | states |
|---|---|---|
| UrlDecoding.PercentDecode | tests/value.rs:45-55 | every decoding failure is the error "invalid encoding sequence"; a successful result is shorter than the input by two bytes per `%` escape |
| UrlDecoding.PercentDecodeOkIff | tests/value.rs:46-49 | decoding fails exactly when some `%` is not followed by two hex digits |
| UrlDecoding.PercentDecodePlain | tests/value.rs:53-54 | input without `%` decodes to itself with every `+` turned into a space and every other byte unchanged |
| UrlDecoding.PercentDecodeEscape | tests/value.rs:39-42 | `%` followed by two hex digits decodes to the single byte they denote, in either letter case |
| UrlDecoding.PercentDecodeAppend | tests/value.rs:39-42 | a well-encoded prefix decodes independently of what follows: the result of the whole is the prefix's decoding followed by the rest's, or the rest's error |
| UrlDecoding.PercentEncodeByte | tests/value.rs:39-42 | every byte has an encoding (itself if unreserved, `+` for a space, else `%XX`) that decodes back to exactly that byte |
| UrlDecoding.PercentDecodeEncode | tests/value.rs:37-55 | decoding inverts the reference encoder on every byte sequence |
| UrlDecoding.UrlDecode | tests/value.rs:37-55 | `urldecode` succeeds exactly when the input is well encoded and its percent-decoded bytes are UTF-8, and then returns the text those bytes encode; an error is "invalid encoding sequence" exactly when the input is not well encoded, and otherwise the UTF-8 error |
| UrlDecoding.UrlDecodeUtf8 | tests/value.rs:37-55 | input that percent-decodes to the UTF-8 encoding of a text decodes to that text |
| UrlDecoding.WellEncodedJoin | tests/value.rs:45-50 | two well-encoded texts joined by a byte other than `%` are well encoded, so an escape never straddles a `=` or `&` |
| UrlDecoding.UrlDecodeEncode | tests/value.rs:37-55 | `urldecode` recovers every string from its UTF-8, percent-encoded form |
| UrlDecoding.UrlDecodeMalformed | tests/value.rs:45-50 | input with a `%` not followed by two hex digits fails with "invalid encoding sequence", whatever else it holds |
| UrlDecoding.UrlDecodePlainAscii | tests/value.rs:53-54 | ASCII input without `%` decodes to the same characters with `+` as a space |
| Utf8.EncodeChar | tests/value.rs:54 | a character encodes to one to four bytes, one byte exactly for ASCII, and every byte after the first is a continuation byte |
| Utf8.DecodeFirstEncodeChar | tests/value.rs:54 | the decoder reads back exactly one encoded character and its length, whatever follows |
| Utf8.DecodeFirstCanonical | tests/value.rs:54 | whatever the decoder accepts is the canonical encoding of the character it returns |
| Utf8.DecodeEncode | tests/value.rs:54 | decoding inverts encoding on every string |
| Utf8.EncodeDecode | tests/value.rs:54 | a byte sequence that decodes is the encoding of its decoded text: the decoder accepts only canonical UTF-8 |
| Utf8.DecodeAscii | tests/value.rs:54 | ASCII bytes decode to the characters with the same codes |
| ValueMaps.Len | tests/value.rs:6 | `len` of a map with unique keys is the number of its keys; `BuildLen`, `FromUrlencodedGet` and `FromJsonGet` carry it to built and parsed maps |
| ValueMaps.Get | tests/value.rs:8 | `get`/`values` is `None` exactly for a name the map does not hold; otherwise it is the values stored under the name, and on a map with unique keys the only entry under it; `BuildGet`, `FromUrlencodedGet` and `FromJsonGet` say what that is for a parsed map |
| ValueMaps.GetSingle | tests/value.rs:5-8 | the map of one name gives that name its values and nothing to any other name |
| ValueMaps.Lookup | tests/value.rs:15 | lookup finds nothing exactly when the name is absent, and what it finds is that name's stored entry |
| ValueMaps.Add | tests/value.rs:20-24 | adding to a present name keeps the names; adding a new name appends it at the end |
| ValueMaps.AddLookup | tests/value.rs:20-24 | after adding, the name holds its old values followed by the new ones, and every other name is unchanged |
| ValueMaps.FirstSeen | tests/value.rs:29-34 | the first-seen order of names has no duplicates, exactly the names of the input, and lists a name before another only if it occurs in the input before every occurrence of the other |
| ValueMaps.FirstSeenOrderStep | tests/value.rs:29-34 | one more name keeps the order of the names already seen, and a new name goes last |
| ValueMaps.BuildNames | tests/value.rs:27-34 | a built map holds each field name once, in first-seen order |
| ValueMaps.BuildGet | tests/value.rs:18-34 | a built map gives for each name all of that name's values in input order, and nothing for a name no field has |
| ValueMaps.BuildLen | tests/value.rs:30 | a built map's length is the number of distinct field names |
| ValueMaps.BuildKeys | tests/value.rs:29-34 | a built map's keys are exactly the field names |
| ValueMaps.ValuesForAppend | tests/value.rs:20-24 | the values of a name across two runs of fields are those of the first run followed by those of the second |
| ValueMaps.BuildAppend | tests/value.rs:18-34 | building from two runs of fields merges per name (values concatenate) and unites the keys |
| Urlencoded.Split | tests/value.rs:18-34 | splitting on a separator yields at least one piece, no piece contains it, and joining the pieces restores the input |
| Urlencoded.SplitAppend | tests/value.rs:18-34 | splitting two bodies joined by the separator gives the pieces of the first followed by those of the second |
| Urlencoded.SplitFirst | tests/value.rs:4-16 | a segment splits at its first `=`: the name contains no `=`, and name, `=` and value restore the segment; without `=` the whole segment is the name |
| Urlencoded.ParseField | tests/value.rs:3-50 | a segment parses exactly when its name (before the first `=`) and its value (after it, if any) both decode; it then holds one value if the segment has a `=` and none otherwise; a malformed `%` anywhere makes it fail; every error is one of the two `urldecode` errors |
| Urlencoded.ParseFieldWellEncoded | tests/value.rs:45-50 | a segment whose name and value both decode is well encoded |
| Urlencoded.ParseFieldPair | tests/value.rs:5-8 | `name=value` parses to the decoded name with the one decoded value, or to the name's or the value's error |
| Urlencoded.ParseFieldBare | tests/value.rs:13-15 | a bare name parses to the decoded name with no values |
| Urlencoded.ParseFieldsOkIff | tests/value.rs:45-50 | the segments parse exactly when every non-empty one does |
| Urlencoded.ParseFieldsFirstError | tests/value.rs:45-50 | a failed parse reports the error of some non-empty segment that fails, and every non-empty segment before it parses |
| Urlencoded.ParseFieldsAppend | tests/value.rs:18-34 | two runs of segments parse separately, the first error winning |
| Urlencoded.FromUrlencoded | tests/value.rs:3-50 | `from_urlencoded` succeeds exactly when the body's fields parse, and then gives a map with unique keys that are exactly the field names; every error is one of the two `urldecode` errors; `FromUrlencodedOkIff`, `FromUrlencodedMalformed`, `FromUrlencodedFirstError` and `FromUrlencodedGet` state the rest |
| Urlencoded.FromUrlencodedOkIff | tests/value.rs:45-50 | a body parses exactly when every non-empty `&`-segment does |
| Urlencoded.JoinWellEncoded | tests/value.rs:45-50 | pieces that are all well encoded, joined by a byte other than `%`, are well encoded |
| Urlencoded.FromUrlencodedMalformed | tests/value.rs:45-50 | a `%` without two hex digits after it anywhere in the body fails the whole parse, with no partial map |
| Urlencoded.ParseFieldMessage | tests/value.rs:47-49 | a segment whose name and value are UTF-8 whenever they percent-decode can fail only with "invalid encoding sequence" |
| Urlencoded.FromUrlencodedMalformedMessage | tests/value.rs:47-49 | a malformed `%` anywhere in a body with no UTF-8 error fails the parse with exactly "invalid encoding sequence" |
| Urlencoded.FromUrlencodedFirstError | tests/value.rs:45-50 | a failed parse returns the error of the first non-empty `&`-segment that fails, never a partial map |
| Urlencoded.FromUrlencodedGet | tests/value.rs:3-35 | a parsed map is well formed, gives each name all its values in order or nothing for an absent name, and its length is the number of distinct names |
| Urlencoded.FromUrlencodedAppend | tests/value.rs:18-25 | two bodies joined by `&` parse exactly when both do; then the values of each name concatenate and the keys unite, and otherwise the first error wins |
| Urlencoded.FromUrlencodedField | tests/value.rs:3-16 | a body of one non-empty segment gives a one-key map holding that segment's values |
| Urlencoded.FromUrlencodedPair | tests/value.rs:5-8 | `name=value`, with no `&` in it and no `=` in the name, gives a one-key map holding the decoded value under the decoded name, or the name's or else the value's decoding error |
| Urlencoded.FromUrlencodedBare | tests/value.rs:13-15 | a non-empty bare name gives a one-key map whose decoded name holds the empty sequence, or the name's decoding error |
| UrlencodedCases.UrlDecodeWord | tests/value.rs:5-8 | an ASCII word without `%`, `+` or `&` decodes to itself |
| UrlencodedCases.Pair | tests/value.rs:5-8 | `name=value` with a plain name gives one key holding the decoded value, or the value's decoding error |
| UrlencodedCases.OnePair | tests/value.rs:39-42 | `name=value` whose value decodes to a text gives a map of length 1 holding that text under the name |
| UrlencodedCases.Bare | tests/value.rs:13-15 | a bare plain name gives one key holding no values |
| UrlencodedCases.JoinParsed | tests/value.rs:18-34 | two bodies that parse, joined by `&`, give a well-formed map whose keys are the union and whose values per name are merged |
| UrlencodedCases.TwoPairs | tests/value.rs:18-34 | `n1=v1&n2=v2` of plain words gives the keys `n1` and `n2`, each name's values merged from both fields |
| UrlencodedCases.SameNameTwice | tests/value.rs:20-24 | `n=v1&n=v2` gives one key holding `[v1, v2]` in input order |
| UrlencodedCases.DistinctNames | tests/value.rs:29-34 | `n1=v1&n2=v2` with different names gives two keys, each holding only its own value |
| UrlencodedCases.EscapeBetween | tests/value.rs:39-42 | an escape `%XX` of an ASCII byte between plain words decodes to that character, the words unchanged |
| UrlencodedCases.OneKeyOneValue | tests/value.rs:5-8 | `foo=1` gives length 1 and `["1"]` under `foo` |
| UrlencodedCases.OneKeyNoValue | tests/value.rs:13-15 | `foo` gives length 1 and `[]` under `foo` |
| UrlencodedCases.OneKeyTwoValues | tests/value.rs:20-24 | `foo=1&foo=2` gives length 1 and `["1", "2"]` under `foo` |
| UrlencodedCases.TwoKeys | tests/value.rs:29-34 | `foo=1&bar=2` gives length 2, `["1"]` under `foo` and `["2"]` under `bar` |
| UrlencodedCases.EncodedCorrectly | tests/value.rs:39-42 | `foo=foo%20bar` gives length 1 and `["foo bar"]` under `foo` |
| UrlencodedCases.DecodeFooSpaceBar | tests/value.rs:39-42 | `urldecode("foo%20bar")` is `"foo bar"` |
| UrlencodedCases.DecodeFooBadEscape | tests/value.rs:47-49 | `urldecode("foo%2xbar")` fails with "invalid encoding sequence" |
| UrlencodedCases.EncodedInvalidChar | tests/value.rs:47-49 | `foo=foo%2xbar` fails with "invalid encoding sequence" |
| UrlencodedCases.Utf8ErrorFirst | tests/value.rs:47-49 | `%C3=%2x` is not well encoded, yet fails with "invalid utf-8 sequence", because the name's error comes first |
| UrlencodedCases.UrldecodePlus | tests/value.rs:54 | `urldecode("foo+bar")` is `"foo bar"` |
| Decimal.NatToString | tests/value.rs:72-79 | a natural number's text is canonical digits that parse back to it |
| Decimal.IntToString | tests/value.rs:72-97 | an integer's text (with `-` when negative) is canonical and parses back to it |
| Decimal.CanonicalUnique | tests/value.rs:72-97 | every canonical integer text is the text of the integer it denotes, so the text is unique |
| JsonValues.ScalarValues | tests/value.rs:59-105 | `null` gives no values and every other scalar exactly one |
| JsonValues.NormalizeItems | tests/value.rs:62-97 | an array normalises exactly when all its items are scalars, giving one value per non-null item |
| JsonValues.NormalizeField | tests/value.rs:59-105 | a field value normalises exactly when it is a scalar or an array of scalars, giving no value for `null`, one for another scalar and one per non-null item for an array; its errors are never "not an object" |
| JsonValues.NormalizeFields | tests/value.rs:57-106 | the normalised fields keep the object's names in order, each with its own value's normalisation |
| JsonValues.SingletonArrayIsScalar | tests/value.rs:59-64 | a one-element array normalises exactly like its element |
| JsonValues.NormalizeItemsAppend | tests/value.rs:66-70 | the items of two arrays joined normalise to the concatenation of their values, the first error winning |
| JsonValues.NormalizeFieldsOkIff | tests/value.rs:57-106 | the fields normalise exactly when every field's value does |
| JsonValues.FromJson | tests/value.rs:57-106 | deserialising gives a map only for an object, with unique keys that are exactly the object's field names; the error is "not an object" exactly when the value is not an object; `FromJsonOkIff`, `FromJsonGet` and `FromJsonSingle` state the rest |
| JsonValues.FromJsonOkIff | tests/value.rs:57-106 | a JSON value deserialises exactly when it is an object whose field values all normalise; anything else is refused |
| JsonValues.FromJsonGet | tests/value.rs:57-106 | a deserialised map is well formed, gives each name its values (concatenated over repeated keys) or nothing, and has one entry per distinct name |
| JsonValues.FromJsonSingle | tests/value.rs:59-105 | a one-field object gives exactly that field's normalised values under its name |
| JsonCases.DeserializeString | tests/value.rs:59-60 | `{"foo":"bar"}` gives `["bar"]` |
| JsonCases.DeserializeSingletonArray | tests/value.rs:62-64 | `{"foo":["bar"]}` gives `["bar"]` |
| JsonCases.DeserializeStringArray | tests/value.rs:66-70 | `{"foo":["bar","baz"]}` gives `["bar", "baz"]` |
| JsonCases.DeserializeInt | tests/value.rs:72-73 | `{"foo":123}` gives `["123"]` |
| JsonCases.DeserializeIntArray | tests/value.rs:75-79 | `{"foo":[123, 456]}` gives `["123", "456"]` |
| JsonCases.DeserializeFloat | tests/value.rs:81-82 | a float whose display text is `123.4` gives `["123.4"]` |
| JsonCases.DeserializeFloatArray | tests/value.rs:84-88 | floats displayed `123.4` and `456.7` give `["123.4", "456.7"]` |
| JsonCases.DeserializeNegativeInt | tests/value.rs:90-91 | `{"foo":-123}` gives `["-123"]` |
| JsonCases.DeserializeNegativeIntArray | tests/value.rs:93-97 | `{"foo":[-123, -456]}` gives `["-123", "-456"]` |
| JsonCases.TwoKeys | tests/value.rs:99-102 | an object with two different keys whose values normalise gives each key its own normalised values |
| JsonCases.DeserializeBools | tests/value.rs:99-102 | `true` gives `["on"]` and `false` gives `["off"]` |
| JsonCases.DeserializeNull | tests/value.rs:104-105 | `{"foo":null}` gives a present `foo` with `[]` |

## Left out

- JSON text lexing and serde's `Deserializer` and visitor machinery: the model starts from an already-parsed `Json` value.
- Float formatting: a JSON float is carried as the text its formatter displays (`JFloat(display)`). How Rust and serde format a float is not modelled.
- JsonCases.DeserializeFloat, JsonCases.DeserializeFloatArray: state the float cases only for the display text `123.4` and `456.7`. They do not state that parsing `123.4` produces that display text.
- The internals of `es_htmlform::value`, such as its hash map type: only what `len`, `get` and `values` return is modelled. The implementation file is not part of this model.
- `ValueMap::values` is the same lookup as `ValueMap::get` (`Get`). `Value::new` is the `Value` constructor.
- The message of the UTF-8 error is not visible anywhere, so the text "invalid utf-8 sequence" is an assumption. Only its distinctness from "invalid encoding sequence" is relied on.
- Integer width: a JSON integer is any value in serde_json's range, from -2^63 up to but not including 2^64. serde_json reads an integer outside this range as a float (a `JFloat` here); the lexer is not modelled.
- Urlencoded.FromUrlencodedMalformed: states only that a malformed `%` fails the parse. The message "invalid encoding sequence" is proved only when no UTF-8 error comes first (`FromUrlencodedMalformedMessage`, under `NoUtf8Error`), because the first failing name or value decides the error.
- The form encoder (`PercentEncode`) does not exist in the library. It is a reference definition that the decoding round-trip lemmas are stated against.
