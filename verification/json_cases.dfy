/** The deserialisation cases tests/value.rs pins down, each derived from the
    general lemmas about `FromJson`. */
module JsonCases {
  import opened Results
  import opened ValueMaps
  import opened JsonValues
  import Decimal

  /** An object of one field `foo` holding `j` gives `foo` the values `vs`. */
  lemma OneField(j: Json, vs: seq<Value>)
    requires NormalizeField(j) == Ok(vs)
    ensures FromJson(JObject([("foo", j)])).Ok?
    ensures Get(FromJson(JObject([("foo", j)])).value, "foo") == Some(vs)
  {
    FromJsonSingle("foo", j);
    GetSingle("foo", vs, "foo");
  }

  /** Two scalars in an array give their values in array order. */
  lemma TwoItems(x: Json, y: Json)
    requires IsScalar(x) && IsScalar(y) && !x.JNull? && !y.JNull?
    ensures NormalizeField(JArray([x, y])) == Ok([ScalarValues(x)[0], ScalarValues(y)[0]])
  {
    SingletonArrayIsScalar(x);
    SingletonArrayIsScalar(y);
    NormalizeItemsAppend([x], [y]);
    assert [x] + [y] == [x, y];
    assert ScalarValues(x) + ScalarValues(y) == [ScalarValues(x)[0], ScalarValues(y)[0]];
  }

  /** Two fields whose values normalise give those values, in order. */
  lemma NormalizeTwo(k1: string, j1: Json, k2: string, j2: Json)
    requires NormalizeField(j1).Ok? && NormalizeField(j2).Ok?
    ensures NormalizeFields([(k1, j1), (k2, j2)])
      == Ok([(k1, NormalizeField(j1).value), (k2, NormalizeField(j2).value)])
  {
    var fields := [(k1, j1), (k2, j2)];
    var f1: Field := (k1, NormalizeField(j1).value);
    var f2: Field := (k2, NormalizeField(j2).value);
    assert fields[0] == (k1, j1) && fields[1..] == [(k2, j2)];
    assert [(k2, j2)][0] == (k2, j2) && [(k2, j2)][1..] == [];
    assert NormalizeFields([(k2, j2)]) == Ok([f2] + []);
    assert [f2] + [] == [f2];
    assert NormalizeFields(fields) == Ok([f1] + [f2]);
    assert [f1] + [f2] == [f1, f2];
  }

  /** An object with two different keys whose values both normalise: each
      key holds its own normalised values. */
  lemma TwoKeys(k1: string, j1: Json, k2: string, j2: Json)
    requires k1 != k2 && NormalizeField(j1).Ok? && NormalizeField(j2).Ok?
    ensures FromJson(JObject([(k1, j1), (k2, j2)])).Ok?
    ensures Get(FromJson(JObject([(k1, j1), (k2, j2)])).value, k1) == Some(NormalizeField(j1).value)
    ensures Get(FromJson(JObject([(k1, j1), (k2, j2)])).value, k2) == Some(NormalizeField(j2).value)
  {
    var fields := [(k1, j1), (k2, j2)];
    var f1: Field := (k1, NormalizeField(j1).value);
    var f2: Field := (k2, NormalizeField(j2).value);
    NormalizeTwo(k1, j1, k2, j2);
    assert ValuesFor([f1, f2], k1) == f1.1 && ValuesFor([f1, f2], k2) == f2.1 by {
      assert [f1, f2][..1] == [f1] && [f1][..0] == [];
      assert ValuesFor([f1], k1) == [] + f1.1;
      assert ValuesFor([f1], k2) == [] + [];
      assert ValuesFor([f1, f2], k1) == ValuesFor([f1], k1) + [];
    }
    assert Names(fields) == [k1, k2];
    FromJsonGet(fields, k1);
    FromJsonGet(fields, k2);
  }

  /** The decimal texts of the integers in the test cases. */
  lemma IntTexts()
    ensures Decimal.IntToString(123) == "123" && Decimal.IntToString(456) == "456"
    ensures Decimal.IntToString(-123) == "-123" && Decimal.IntToString(-456) == "-456"
  {
    assert Decimal.NatToString(12) == "12";
    assert Decimal.NatToString(123) == "123";
    assert Decimal.NatToString(45) == "45";
    assert Decimal.NatToString(456) == "456";
  }

  /** tests/value.rs:59-60: a string gives one value, the string itself. */
  lemma DeserializeString()
    ensures FromJson(JObject([("foo", JString("bar"))])).Ok?
    ensures Get(FromJson(JObject([("foo", JString("bar"))])).value, "foo") == Some([Value("bar")])
  {
    OneField(JString("bar"), [Value("bar")]);
  }

  /** tests/value.rs:62-64: a one-element array gives what its element gives. */
  lemma DeserializeSingletonArray()
    ensures FromJson(JObject([("foo", JArray([JString("bar")]))])).Ok?
    ensures Get(FromJson(JObject([("foo", JArray([JString("bar")]))])).value, "foo") == Some([Value("bar")])
  {
    SingletonArrayIsScalar(JString("bar"));
    OneField(JArray([JString("bar")]), [Value("bar")]);
  }

  /** tests/value.rs:66-70: an array's strings in array order. */
  lemma DeserializeStringArray()
    ensures FromJson(JObject([("foo", JArray([JString("bar"), JString("baz")]))])).Ok?
    ensures Get(FromJson(JObject([("foo", JArray([JString("bar"), JString("baz")]))])).value, "foo")
      == Some([Value("bar"), Value("baz")])
  {
    TwoItems(JString("bar"), JString("baz"));
    OneField(JArray([JString("bar"), JString("baz")]), [Value("bar"), Value("baz")]);
  }

  /** tests/value.rs:72-73: an integer gives its decimal text. */
  lemma DeserializeInt()
    ensures FromJson(JObject([("foo", JInt(123))])).Ok?
    ensures Get(FromJson(JObject([("foo", JInt(123))])).value, "foo") == Some([Value("123")])
  {
    IntTexts();
    OneField(JInt(123), [Value("123")]);
  }

  /** tests/value.rs:75-79: an array of integers gives their decimal texts in order. */
  lemma DeserializeIntArray()
    ensures FromJson(JObject([("foo", JArray([JInt(123), JInt(456)]))])).Ok?
    ensures Get(FromJson(JObject([("foo", JArray([JInt(123), JInt(456)]))])).value, "foo")
      == Some([Value("123"), Value("456")])
  {
    IntTexts();
    TwoItems(JInt(123), JInt(456));
    OneField(JArray([JInt(123), JInt(456)]), [Value("123"), Value("456")]);
  }

  /** tests/value.rs:81-82: a float gives the text its formatter gives it. */
  lemma DeserializeFloat()
    ensures FromJson(JObject([("foo", JFloat("123.4"))])).Ok?
    ensures Get(FromJson(JObject([("foo", JFloat("123.4"))])).value, "foo") == Some([Value("123.4")])
  {
    OneField(JFloat("123.4"), [Value("123.4")]);
  }

  /** tests/value.rs:84-88: an array of floats gives their texts in order. */
  lemma DeserializeFloatArray()
    ensures FromJson(JObject([("foo", JArray([JFloat("123.4"), JFloat("456.7")]))])).Ok?
    ensures Get(FromJson(JObject([("foo", JArray([JFloat("123.4"), JFloat("456.7")]))])).value, "foo")
      == Some([Value("123.4"), Value("456.7")])
  {
    TwoItems(JFloat("123.4"), JFloat("456.7"));
    OneField(JArray([JFloat("123.4"), JFloat("456.7")]), [Value("123.4"), Value("456.7")]);
  }

  /** tests/value.rs:90-91: a negative integer keeps its sign. */
  lemma DeserializeNegativeInt()
    ensures FromJson(JObject([("foo", JInt(-123))])).Ok?
    ensures Get(FromJson(JObject([("foo", JInt(-123))])).value, "foo") == Some([Value("-123")])
  {
    IntTexts();
    OneField(JInt(-123), [Value("-123")]);
  }

  /** tests/value.rs:93-97: an array of negative integers. */
  lemma DeserializeNegativeIntArray()
    ensures FromJson(JObject([("foo", JArray([JInt(-123), JInt(-456)]))])).Ok?
    ensures Get(FromJson(JObject([("foo", JArray([JInt(-123), JInt(-456)]))])).value, "foo")
      == Some([Value("-123"), Value("-456")])
  {
    IntTexts();
    TwoItems(JInt(-123), JInt(-456));
    OneField(JArray([JInt(-123), JInt(-456)]), [Value("-123"), Value("-456")]);
  }

  /** tests/value.rs:99-102: `true` and `false` become `on` and `off`, each
      under its own name. */
  lemma DeserializeBools()
    ensures FromJson(JObject([("foo", JBool(true)), ("bar", JBool(false))])).Ok?
    ensures Get(FromJson(JObject([("foo", JBool(true)), ("bar", JBool(false))])).value, "foo") == Some([Value("on")])
    ensures Get(FromJson(JObject([("foo", JBool(true)), ("bar", JBool(false))])).value, "bar") == Some([Value("off")])
  {
    assert NormalizeField(JBool(true)) == Ok([Value("on")]);
    assert NormalizeField(JBool(false)) == Ok([Value("off")]);
    assert "foo"[0] != "bar"[0];
    TwoKeys("foo", JBool(true), "bar", JBool(false));
  }

  /** tests/value.rs:104-105: `null` gives a name present with no values. */
  lemma DeserializeNull()
    ensures FromJson(JObject([("foo", JNull)])).Ok?
    ensures Get(FromJson(JObject([("foo", JNull)])).value, "foo") == Some([])
  {
    OneField(JNull, []);
  }
}
