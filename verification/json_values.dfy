/** Deserialising a `ValueMap` from JSON: each field of a JSON object is
    normalised into the sequence of text values an HTML form would submit. */
module JsonValues {
  import opened Results
  import opened ValueMaps
  import Decimal

  /** The integers serde_json reads as integers: those of `i64` or `u64`. */
  type JsonInt = i: int | -0x8000_0000_0000_0000 <= i < 0x1_0000_0000_0000_0000

  /** An already parsed JSON value. A float carries the text the float
      formatter gives it; the formatting itself is not modelled. */
  datatype Json =
    | JNull
    | JBool(b: bool)
    | JInt(i: JsonInt)
    | JFloat(display: string)
    | JString(s: string)
    | JArray(items: seq<Json>)
    | JObject(fields: seq<(string, Json)>)

  /** The deserialisation errors of the model: the input is not an object, or
      a field holds a shape a form cannot hold. */
  datatype ShapeError = NotAnObject | NestedArray | NestedObject

  predicate IsScalar(j: Json) {
    !j.JArray? && !j.JObject?
  }

  /** The form text of a boolean: checkbox semantics. */
  function BoolText(b: bool): string {
    if b then "on" else "off"
  }

  /** The values one scalar stands for: none for `null`, otherwise one. */
  function ScalarValues(j: Json): (r: seq<Value>)
    requires IsScalar(j)
    ensures |r| == if j.JNull? then 0 else 1
  {
    match j
    case JNull => []
    case JBool(b) => [Value(BoolText(b))]
    case JInt(i) => [Value(Decimal.IntToString(i))]
    case JFloat(d) => [Value(d)]
    case JString(s) => [Value(s)]
  }

  /** Number of items that are not `null`. */
  function NonNullCount(items: seq<Json>): nat {
    if |items| == 0 then 0 else (if items[0].JNull? then 0 else 1) + NonNullCount(items[1..])
  }

  /** The error for a value that is not a scalar where a scalar is expected. */
  function ShapeOf(j: Json): ShapeError
    requires !IsScalar(j)
  {
    if j.JArray? then NestedArray else NestedObject
  }

  /** The items of an array, each normalised as a scalar, concatenated in
      order; an item that is an array or an object is an error. */
  function NormalizeItems(items: seq<Json>): (r: Result<seq<Value>, ShapeError>)
    ensures r.Ok? <==> forall i :: 0 <= i < |items| ==> IsScalar(items[i])
    ensures r.Ok? ==> |r.value| == NonNullCount(items)
    ensures r.Err? ==> r.error != NotAnObject
  {
    if |items| == 0 then Ok([])
    else if !IsScalar(items[0]) then Err(ShapeOf(items[0]))
    else
      var rest := NormalizeItems(items[1..]);
      assert forall i :: 1 <= i < |items| ==> items[i] == items[1..][i - 1];
      if rest.Err? then
        assert exists i :: 1 <= i < |items| && !IsScalar(items[i]);
        Err(rest.error)
      else Ok(ScalarValues(items[0]) + rest.value)
  }

  /** The values of one field. */
  function NormalizeField(j: Json): (r: Result<seq<Value>, ShapeError>)
    ensures r.Ok? <==> !j.JObject? && (j.JArray? ==> forall i :: 0 <= i < |j.items| ==> IsScalar(j.items[i]))
    ensures r.Ok? ==> |r.value| == if j.JArray? then NonNullCount(j.items) else if j.JNull? then 0 else 1
    ensures r.Err? ==> r.error != NotAnObject
  {
    match j
    case JArray(items) => NormalizeItems(items)
    case JObject(_) => Err(NestedObject)
    case _ => Ok(ScalarValues(j))
  }

  /** Every field of an object normalised, in order; the first error wins. */
  function NormalizeFields(fields: seq<(string, Json)>): (r: Result<seq<Field>, ShapeError>)
    ensures r.Ok? ==> Names(r.value) == Names(fields)
    ensures r.Ok? ==> forall i :: 0 <= i < |fields| ==> NormalizeField(fields[i].1) == Ok(r.value[i].1)
    ensures r.Err? ==> r.error != NotAnObject
  {
    if |fields| == 0 then Ok([])
    else
      var vs :- NormalizeField(fields[0].1);
      var rest :- NormalizeFields(fields[1..]);
      NormalizeCons(fields, vs, rest);
      Ok([(fields[0].0, vs)] + rest)
  }

  /** The normalisation step of `NormalizeFields`: the first field's values
      in front of those of the other fields. */
  lemma NormalizeCons(fields: seq<(string, Json)>, vs: seq<Value>, rest: seq<Field>)
    requires |fields| > 0 && NormalizeField(fields[0].1) == Ok(vs)
    requires Names(rest) == Names(fields[1..])
    requires forall i :: 0 <= i < |fields| - 1 ==> NormalizeField(fields[1..][i].1) == Ok(rest[i].1)
    ensures Names([(fields[0].0, vs)] + rest) == Names(fields)
    ensures forall i :: 0 <= i < |fields| ==> NormalizeField(fields[i].1) == Ok(([(fields[0].0, vs)] + rest)[i].1)
  {
    ConsNames(fields[0], fields[1..], fields[0].0, vs, rest);
    assert fields == [fields[0]] + fields[1..];
    var r := [(fields[0].0, vs)] + rest;
    forall i | 0 <= i < |fields| ensures NormalizeField(fields[i].1) == Ok(r[i].1) {
      if i > 0 {
        assert fields[i] == fields[1..][i - 1] && r[i] == rest[i - 1];
      }
    }
  }

  /** Consing fields of the same name onto sequences with the same names
      keeps the names equal. */
  lemma ConsNames<V, W>(f: (string, V), fs: seq<(string, V)>, k: string, w: W, gs: seq<(string, W)>)
    requires f.0 == k && Names(fs) == Names(gs)
    ensures Names([(k, w)] + gs) == Names([f] + fs)
  {
    NamesCons(f, fs);
    NamesCons((k, w), gs);
  }

  /** The `ValueMap` a JSON value deserialises to: only an object is accepted,
      and its fields build the map as form fields would. */
  function FromJson(j: Json): (r: Result<ValueMap, ShapeError>)
    ensures r.Ok? ==> j.JObject? && Valid(r.value) && Keys(r.value) == set x | x in Names(j.fields)
    ensures r.Err? ==> (r.error == NotAnObject <==> !j.JObject?)
  {
    match j
    case JObject(fields) =>
      var fs :- NormalizeFields(fields);
      BuildNames(fs);
      BuildKeys(fs);
      Ok(Build(fs))
    case _ => Err(NotAnObject)
  }

  /** A scalar and the one-element array holding it give the same values. */
  lemma SingletonArrayIsScalar(j: Json)
    requires IsScalar(j)
    ensures NormalizeField(JArray([j])) == NormalizeField(j)
  {
    assert [j][1..] == [];
    assert ScalarValues(j) + [] == ScalarValues(j);
  }

  /** Two runs of array items normalise separately and concatenate in order;
      the first error wins. */
  lemma {:induction false} NormalizeItemsAppend(a: seq<Json>, b: seq<Json>)
    ensures NormalizeItems(a + b)
      == if NormalizeItems(a).Err? then NormalizeItems(a)
         else if NormalizeItems(b).Err? then NormalizeItems(b)
         else Ok(NormalizeItems(a).value + NormalizeItems(b).value)
  {
    if |a| == 0 {
      assert a + b == b;
      if NormalizeItems(b).Ok? {
        assert [] + NormalizeItems(b).value == NormalizeItems(b).value;
      }
    } else {
      assert (a + b)[0] == a[0] && (a + b)[1..] == a[1..] + b;
      NormalizeItemsAppend(a[1..], b);
      if IsScalar(a[0]) && NormalizeItems(a[1..]).Ok? && NormalizeItems(b).Ok? {
        var h, x, y := ScalarValues(a[0]), NormalizeItems(a[1..]).value, NormalizeItems(b).value;
        assert h + (x + y) == (h + x) + y;
      }
    }
  }

  /** A JSON value deserialises exactly when it is an object and every
      field's value normalises; a value that is not an object is refused. */
  lemma FromJsonOkIff(j: Json)
    ensures FromJson(j).Ok?
      <==> j.JObject? && forall i :: 0 <= i < |j.fields| ==> NormalizeField(j.fields[i].1).Ok?
    ensures !j.JObject? ==> FromJson(j) == Err(NotAnObject)
  {
    if j.JObject? {
      NormalizeFieldsOkIff(j.fields);
    }
  }

  /** The fields normalise exactly when each field's value does. */
  lemma {:induction false} NormalizeFieldsOkIff(fields: seq<(string, Json)>)
    ensures NormalizeFields(fields).Ok?
      <==> forall i :: 0 <= i < |fields| ==> NormalizeField(fields[i].1).Ok?
  {
    if |fields| > 0 {
      NormalizeFieldsOkIff(fields[1..]);
      assert forall i :: 1 <= i < |fields| ==> fields[i] == fields[1..][i - 1];
    }
  }

  /** What a deserialised object holds: unique names; under each name the
      normalised values of all the fields with that name, in order, or `None`
      when no field has it; `len` counts the distinct names. */
  lemma FromJsonGet(fields: seq<(string, Json)>, k: string)
    requires FromJson(JObject(fields)).Ok?
    ensures Valid(FromJson(JObject(fields)).value)
    ensures Get(FromJson(JObject(fields)).value, k)
      == if k in Names(fields) then Some(ValuesFor(NormalizeFields(fields).value, k)) else None
    ensures Len(FromJson(JObject(fields)).value) == |set x | x in Names(fields)|
  {
    var fs := NormalizeFields(fields).value;
    BuildNames(fs);
    BuildGet(fs, k);
    BuildLen(fs);
  }

  /** An object of one field `k` holds `k` with that field's values. */
  lemma FromJsonSingle(k: string, j: Json)
    ensures FromJson(JObject([(k, j)]))
      == if NormalizeField(j).Err? then Err(NormalizeField(j).error)
         else Ok(ValueMap([(k, NormalizeField(j).value)]))
  {
    var fields := [(k, j)];
    assert fields[0] == (k, j) && fields[1..] == [];
    if NormalizeField(j).Ok? {
      var f: Field := (k, NormalizeField(j).value);
      assert NormalizeFields(fields) == Ok([f] + []);
      assert [f] + [] == [f];
      assert Build([f]) == ValueMap([f]) by {
        assert [f][..0] == [];
        assert Build([f][..0]) == ValueMap([]);
      }
    }
  }
}
