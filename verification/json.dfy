/** The JSON values a third-party parser returns, with Python's truthiness
    and dictionary lookup. */
module Json {
  import opened Text

  /** A JSON value. Objects keep their entries in order, as Python dicts do. */
  datatype Json =
    | Null
    | Bool(b: bool)
    | Num(n: real)
    | Str(s: string)
    | Arr(items: seq<Json>)
    | Obj(entries: seq<Entry>)

  datatype Entry = Entry(key: string, value: Json)

  /** Python's `bool(x)`: `None`, `False`, zero and empty containers are false. */
  predicate Truthy(j: Json) {
    match j
    case Null => false
    case Bool(b) => b
    case Num(n) => n != 0.0
    case Str(s) => s != []
    case Arr(items) => items != []
    case Obj(entries) => entries != []
  }

  /** The falsy values are exactly `None`, `False`, zero, `""`, `[]` and `{}`. */
  lemma FalsyValues(j: Json)
    ensures !Truthy(j) <==> j in {Null, Bool(false), Num(0.0), Str([]), Arr([]), Obj([])}
  {
  }

  /** `obj.get(key)`: the value of the first entry with that key. */
  function Get(es: seq<Entry>, key: string): (r: Option<Json>)
    ensures r.Some? <==> exists i :: 0 <= i < |es| && es[i].key == key
    ensures r.Some? ==> exists i :: 0 <= i < |es| && es[i].key == key && es[i].value == r.value
                                  && forall j :: 0 <= j < i ==> es[j].key != key
  {
    if es == [] then None
    else if es[0].key == key then Some(es[0].value)
    else
      var r := Get(es[1..], key);
      assert forall i :: 0 < i < |es| ==> es[i] == es[1..][i - 1];
      r
  }

  /** `key in obj and obj[key]`. */
  predicate HasTruthy(es: seq<Entry>, key: string) {
    Get(es, key).Some? && Truthy(Get(es, key).value)
  }
}
