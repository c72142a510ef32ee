/** `Value` and `ValueMap`: form data as field names, each with an ordered
    sequence of zero or more text values. Both constructors of a `ValueMap`
    (from an encoded body and from a JSON object) go through `Build`. */
module ValueMaps {
  import opened Results

  /** One form value (`Value::new`): already decoded or normalised text. */
  datatype Value = Value(text: string)

  /** A field name with values for it, in order. */
  type Field = (string, seq<Value>)

  /** A `ValueMap`: one entry per field name, names in the order they were
      first seen, values in the order they arrived. */
  datatype ValueMap = ValueMap(entries: seq<Field>)

  /** The names of a sequence of fields, in order. */
  function Names<V>(fs: seq<(string, V)>): (r: seq<string>)
    ensures |r| == |fs|
    ensures forall i :: 0 <= i < |fs| ==> r[i] == fs[i].0
  {
    seq(|fs|, i requires 0 <= i < |fs| => fs[i].0)
  }

  predicate Distinct(s: seq<string>) {
    forall i, j :: 0 <= i < j < |s| ==> s[i] != s[j]
  }

  /** Keys are unique. */
  predicate Valid(m: ValueMap) {
    Distinct(Names(m.entries))
  }

  /** `len`: the number of distinct field names. */
  function Len(m: ValueMap): (r: nat)
    ensures Valid(m) ==> r == |Keys(m)|
  {
    assert Valid(m) ==> |m.entries| == |Keys(m)| by {
      if Valid(m) { DistinctCard(Names(m.entries)); }
    }
    |m.entries|
  }

  /** The field names a map holds. */
  function Keys(m: ValueMap): set<string> {
    set x | x in Names(m.entries)
  }

  /** The values stored under `k` in `es`, if `k` is there. */
  function Lookup(es: seq<Field>, k: string): (r: Option<seq<Value>>)
    ensures r.None? <==> k !in Names(es)
    ensures r.Some? ==> (k, r.value) in es
  {
    if |es| == 0 then None
    else
      assert Names(es) == [es[0].0] + Names(es[1..]);
      if es[0].0 == k then Some(es[0].1) else Lookup(es[1..], k)
  }

  /** `get` and `values`: the values of field `k`; `None` when the field never
      occurred, `Some([])` when it occurred without a value. */
  function Get(m: ValueMap, k: string): (r: Option<seq<Value>>)
    ensures r.None? <==> k !in Keys(m)
    ensures r.Some? ==> (k, r.value) in m.entries
    ensures r.Some? && Valid(m) ==>
      forall i :: 0 <= i < |m.entries| && m.entries[i].0 == k ==> m.entries[i].1 == r.value
  {
    LookupUnique(m.entries, k);
    Lookup(m.entries, k)
  }

  /** Among fields with distinct names, what `Lookup` finds is the only entry
      under that name. */
  lemma LookupUnique(es: seq<Field>, k: string)
    ensures Lookup(es, k).Some? && Distinct(Names(es)) ==>
      forall i :: 0 <= i < |es| && es[i].0 == k ==> es[i].1 == Lookup(es, k).value
  {
    var r := Lookup(es, k);
    if r.Some? && Distinct(Names(es)) {
      var j :| 0 <= j < |es| && es[j] == (k, r.value);
      forall i | 0 <= i < |es| && es[i].0 == k ensures es[i].1 == r.value {
        assert Names(es)[i] == k == Names(es)[j];
      }
    }
  }

  /** The map of one name gives that name its values and nothing to any other. */
  lemma GetSingle(k: string, vs: seq<Value>, k': string)
    ensures Get(ValueMap([(k, vs)]), k') == if k' == k then Some(vs) else None
  {
    assert Names([(k, vs)]) == [k];
  }

  /** The values of `k` so far, empty when there are none. */
  function Current(es: seq<Field>, k: string): seq<Value> {
    match Lookup(es, k)
    case Some(vs) => vs
    case None => []
  }

  lemma NamesCons<V>(f: (string, V), fs: seq<(string, V)>)
    ensures Names([f] + fs) == [f.0] + Names(fs)
  {
  }

  /** `es` after field `k` received the values `vs`: appended to the values
      already there, or as a new last entry when `k` is new. */
  function Add(es: seq<Field>, k: string, vs: seq<Value>): (r: seq<Field>)
    ensures Names(r) == if k in Names(es) then Names(es) else Names(es) + [k]
  {
    if |es| == 0 then
      [(k, vs)]
    else
      NamesCons(es[0], es[1..]);
      assert es == [es[0]] + es[1..];
      if es[0].0 == k then
        NamesCons((k, es[0].1 + vs), es[1..]);
        [(k, es[0].1 + vs)] + es[1..]
      else
        var rest := Add(es[1..], k, vs);
        NamesCons(es[0], rest);
        assert k in Names(es) <==> k in Names(es[1..]);
        [es[0]] + rest
  }

  /** Adding values to `k` appends them to what `k` held and leaves every
      other field as it was. */
  lemma {:induction false} AddLookup(es: seq<Field>, k: string, vs: seq<Value>, k': string)
    ensures Lookup(Add(es, k, vs), k') == if k' == k then Some(Current(es, k) + vs) else Lookup(es, k')
  {
    if |es| == 0 {
      assert [] + vs == vs;
    } else if es[0].0 == k {
      var r := [(k, es[0].1 + vs)] + es[1..];
      assert r[1..] == es[1..];
    } else {
      AddLookup(es[1..], k, vs, k');
      assert ([es[0]] + Add(es[1..], k, vs))[1..] == Add(es[1..], k, vs);
    }
  }

  /** Whenever `a` comes before `b` in `r`, `a` occurs in `s` before every
      occurrence of `b`: `r` lists names in the order `s` first shows them. */
  predicate InFirstSeenOrder(s: seq<string>, r: seq<string>) {
    forall i, j, q :: 0 <= i < j < |r| && 0 <= q < |s| && s[q] == r[j] ==> r[i] in s[..q]
  }

  /** `s` without its repetitions: each element at its first position. */
  function FirstSeen(s: seq<string>): (r: seq<string>)
    ensures Distinct(r)
    ensures forall x :: x in r <==> x in s
    ensures InFirstSeenOrder(s, r)
  {
    if |s| == 0 then []
    else
      var p := FirstSeen(s[..|s| - 1]);
      var x := s[|s| - 1];
      assert s == s[..|s| - 1] + [x];
      FirstSeenOrderStep(s[..|s| - 1], x, p);
      if x in p then p else p + [x]
  }

  /** Appending `x` to `s` keeps the order of `p`, and a new `x` goes last. */
  lemma FirstSeenOrderStep(s: seq<string>, x: string, p: seq<string>)
    requires InFirstSeenOrder(s, p)
    requires forall y :: y in p <==> y in s
    ensures InFirstSeenOrder(s + [x], if x in p then p else p + [x])
  {
    var s' := s + [x];
    var r := if x in p then p else p + [x];
    forall i, j, q | 0 <= i < j < |r| && 0 <= q < |s'| && s'[q] == r[j] ensures r[i] in s'[..q] {
      assert r[i] == p[i];
      if q < |s| {
        assert s'[..q] == s[..q] && s'[q] == s[q];
        if j < |p| {
          assert r[j] == p[j];
        }
      } else {
        assert s'[..q] == s;
      }
    }
  }

  /** All values given to `k` by the fields `fs`, in order. */
  function ValuesFor(fs: seq<Field>, k: string): seq<Value> {
    if |fs| == 0 then []
    else ValuesFor(fs[..|fs| - 1], k) + (if fs[|fs| - 1].0 == k then fs[|fs| - 1].1 else [])
  }

  /** The map the fields `fs` build, applied one after the other. */
  function Build(fs: seq<Field>): ValueMap {
    if |fs| == 0 then ValueMap([])
    else
      var last := fs[|fs| - 1];
      ValueMap(Add(Build(fs[..|fs| - 1]).entries, last.0, last.1))
  }

  /** The names of the built map are unique and in first-seen order. */
  lemma {:induction false} BuildNames(fs: seq<Field>)
    ensures Names(Build(fs).entries) == FirstSeen(Names(fs))
    ensures Valid(Build(fs))
  {
    if |fs| > 0 {
      var init := fs[..|fs| - 1];
      var last := fs[|fs| - 1];
      BuildNames(init);
      var names := Names(fs);
      assert names[..|fs| - 1] == Names(init);
      assert names[|fs| - 1] == last.0;
      var prev := Names(Build(init).entries);
      assert FirstSeen(names) == if last.0 in prev then prev else prev + [last.0];
      assert Names(Build(fs).entries) == Names(Add(Build(init).entries, last.0, last.1));
    }
  }

  /** A name no field carries gets no values. */
  lemma {:induction false} ValuesForAbsent(fs: seq<Field>, k: string)
    requires k !in Names(fs)
    ensures ValuesFor(fs, k) == []
  {
    if |fs| > 0 {
      assert Names(fs) == Names(fs[..|fs| - 1]) + [fs[|fs| - 1].0];
      ValuesForAbsent(fs[..|fs| - 1], k);
    }
  }

  /** A name's values in the built map are all the values the fields with
      that name carry, in order; a name no field carries is absent. */
  lemma {:induction false} BuildGet(fs: seq<Field>, k: string)
    ensures Get(Build(fs), k) == if k in Names(fs) then Some(ValuesFor(fs, k)) else None
  {
    if |fs| == 0 {
      assert Names(fs) == [];
    } else {
      BuildGet(fs[..|fs| - 1], k);
      BuildGetStep(fs, k);
    }
  }

  /** The last field of `fs` in terms of the fields before it: its name
      ends the names, its values end those of its name, and the built map
      is the map of the earlier fields with it added. */
  lemma BuildLast(fs: seq<Field>, k: string)
    requires |fs| > 0
    ensures Names(fs) == Names(fs[..|fs| - 1]) + [fs[|fs| - 1].0]
    ensures ValuesFor(fs, k)
      == ValuesFor(fs[..|fs| - 1], k) + if fs[|fs| - 1].0 == k then fs[|fs| - 1].1 else []
    ensures Build(fs).entries == Add(Build(fs[..|fs| - 1]).entries, fs[|fs| - 1].0, fs[|fs| - 1].1)
  {
    var init := fs[..|fs| - 1];
    var n, ni := Names(fs), Names(init);
    assert forall i :: 0 <= i < |init| ==> n[i] == ni[i];
    assert n == ni + [fs[|fs| - 1].0];
  }

  /** The step of `BuildGet`: the last field either adds to `k` or leaves it alone. */
  lemma BuildGetStep(fs: seq<Field>, k: string)
    requires |fs| > 0
    requires var init := fs[..|fs| - 1];
      Get(Build(init), k) == if k in Names(init) then Some(ValuesFor(init, k)) else None
    ensures Get(Build(fs), k) == if k in Names(fs) then Some(ValuesFor(fs, k)) else None
  {
    var init := fs[..|fs| - 1];
    var last := fs[|fs| - 1];
    var prev := Build(init).entries;
    BuildLast(fs, k);
    AddLookup(prev, last.0, last.1, k);
    if k == last.0 {
      if k !in Names(init) {
        ValuesForAbsent(init, k);
        assert [] + last.1 == last.1;
      }
    } else {
      assert ValuesFor(init, k) + [] == ValuesFor(init, k);
    }
  }

  /** A sequence without repetitions has as many distinct elements as it has elements. */
  lemma {:induction false} DistinctCard(s: seq<string>)
    requires Distinct(s)
    ensures |set x | x in s| == |s|
  {
    if |s| > 0 {
      var t := s[1..];
      assert Distinct(t);
      DistinctCard(t);
      assert (set x | x in s) == {s[0]} + (set x | x in t);
      assert s[0] !in t;
    }
  }

  /** `len` of the built map is the number of distinct names among the fields. */
  lemma BuildLen(fs: seq<Field>)
    ensures Len(Build(fs)) == |set x | x in Names(fs)|
  {
    BuildNames(fs);
    var r := FirstSeen(Names(fs));
    DistinctCard(r);
    assert (set x | x in r) == (set x | x in Names(fs));
  }

  /** The values of `k` in two runs of fields one after the other are those of
      the first run followed by those of the second. */
  lemma {:induction false} ValuesForAppend(a: seq<Field>, b: seq<Field>, k: string)
    ensures ValuesFor(a + b, k) == ValuesFor(a, k) + ValuesFor(b, k)
    decreases |b|
  {
    if |b| == 0 {
      assert a + b == a;
      assert ValuesFor(a, k) + [] == ValuesFor(a, k);
    } else {
      var last := b[|b| - 1];
      assert (a + b)[..|a + b| - 1] == a + b[..|b| - 1];
      ValuesForAppend(a, b[..|b| - 1], k);
    }
  }

  /** The built map holds exactly the names of the fields. */
  lemma BuildKeys(fs: seq<Field>)
    ensures Keys(Build(fs)) == set x | x in Names(fs)
  {
    BuildNames(fs);
  }

  /** The values a name has in two maps taken together. */
  function Merge(x: Option<seq<Value>>, y: Option<seq<Value>>): Option<seq<Value>> {
    match (x, y)
    case (None, _) => y
    case (_, None) => x
    case (Some(u), Some(v)) => Some(u + v)
  }

  /** Building from two runs of fields merges the maps each run builds. */
  lemma BuildAppend(fa: seq<Field>, fb: seq<Field>)
    ensures forall k :: Get(Build(fa + fb), k) == Merge(Get(Build(fa), k), Get(Build(fb), k))
    ensures Keys(Build(fa + fb)) == Keys(Build(fa)) + Keys(Build(fb))
  {
    assert Names(fa + fb) == Names(fa) + Names(fb);
    BuildKeys(fa + fb);
    BuildKeys(fa);
    BuildKeys(fb);
    forall k
      ensures Get(Build(fa + fb), k) == Merge(Get(Build(fa), k), Get(Build(fb), k))
    {
      BuildGetAppend(fa, fb, k);
    }
  }

  /** The step of `BuildAppend` for one name. */
  lemma BuildGetAppend(fa: seq<Field>, fb: seq<Field>, k: string)
    ensures Get(Build(fa + fb), k) == Merge(Get(Build(fa), k), Get(Build(fb), k))
  {
    assert Names(fa + fb) == Names(fa) + Names(fb);
    BuildGet(fa + fb, k);
    BuildGet(fa, k);
    BuildGet(fb, k);
    ValuesForAppend(fa, fb, k);
    var va, vb := ValuesFor(fa, k), ValuesFor(fb, k);
    if k in Names(fa) && k in Names(fb) {
      assert Get(Build(fa + fb), k) == Some(va + vb);
    } else if k in Names(fa) {
      ValuesForAbsent(fb, k);
      assert va + [] == va;
      assert Get(Build(fa + fb), k) == Some(va);
    } else if k in Names(fb) {
      ValuesForAbsent(fa, k);
      assert [] + vb == vb;
      assert Get(Build(fa + fb), k) == Some(vb);
    } else {
      assert Get(Build(fa + fb), k) == None;
    }
  }
}
