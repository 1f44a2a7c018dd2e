/** A plain JavaScript object with string keys, as routes.ts builds and
    reads them: Object.keys lists the own keys in the order they were first
    added, and assigning to a key that is already there replaces its value
    but keeps its place. */
module JsObject {

  datatype Obj<V> = Obj(keys: seq<string>, entries: map<string, V>)

  /** No element occurs twice. */
  predicate Distinct<T(==)>(xs: seq<T>)
  {
    forall i, j :: 0 <= i < j < |xs| ==> xs[i] != xs[j]
  }

  /** Every key listed once, and exactly the keys that have a value. */
  predicate Valid<V>(o: Obj<V>)
  {
    && Distinct(o.keys)
    && (forall k :: k in o.keys ==> k in o.entries)
    && (forall k :: k in o.entries ==> k in o.keys)
  }

  /** `{}` */
  function Empty<V>(): (o: Obj<V>)
    ensures Valid(o) && o.keys == []
  {
    Obj([], map[])
  }

  /** `o[k] = v`, and equally `{...o, [k]: v}`: the value of `k` becomes `v`
      and a new key goes to the end of the key order. */
  function Assign<V>(o: Obj<V>, k: string, v: V): (r: Obj<V>)
    requires Valid(o)
    ensures Valid(r)
    ensures r.entries == o.entries[k := v]
    ensures k in o.entries ==> r.keys == o.keys
    ensures k !in o.entries ==> r.keys == o.keys + [k]
  {
    if k in o.entries then Obj(o.keys, o.entries[k := v])
    else Obj(o.keys + [k], o.entries[k := v])
  }
}
