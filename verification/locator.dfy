/** `_recursive_search`: finding a field in a parser's JSON response under
    any of several alias keys, wherever in the tree it is stored. */
module Locator {
  import opened Text
  import opened Json

  /** The wrapper keys looked into, one level deep, before the full descent. */
  const Containers: seq<string> :=
    ["data", "parsed", "parsed_resume", "personal", "contact", "personal_details", "attributes", "profile"]

  /** `v` is stored under one of `keys` in some object of the tree `j`. */
  ghost predicate Under(j: Json, keys: seq<string>, v: Json)
    decreases j
  {
    match j
    case Arr(items) => exists i :: 0 <= i < |items| && Under(items[i], keys, v)
    case Obj(es) =>
      || (exists k :: k in keys && Get(es, k) == Some(v))
      || (exists i :: 0 <= i < |es| && Under(es[i].value, keys, v))
    case _ => false
  }

  /** The first alias, in the caller's order, whose value in `es` is truthy. */
  function DirectHit(es: seq<Entry>, keys: seq<string>): (r: Option<Json>)
    ensures r.Some? ==> Truthy(r.value) && exists k :: k in keys && Get(es, k) == r
    ensures r.None? <==> forall k :: k in keys ==> !HasTruthy(es, k)
  {
    if keys == [] then None
    else if HasTruthy(es, keys[0]) then Get(es, keys[0])
    else
      var r := DirectHit(es, keys[1..]);
      assert forall k :: k in keys ==> k == keys[0] || k in keys[1..];
      r
  }

  /** The wrapper objects in `Containers` order: the first that holds an alias
      with a truthy value gives it. A wrapper that is not an object is passed over. */
  function ContainerHit(es: seq<Entry>, keys: seq<string>, cs: seq<string>): (r: Option<Json>)
    ensures r.Some? ==> Truthy(r.value) && Under(Obj(es), keys, r.value)
  {
    if cs == [] then None
    else match Get(es, cs[0])
      case Some(Obj(inner)) =>
        (match DirectHit(inner, keys)
         case Some(v) =>
           var i :| 0 <= i < |es| && es[i].key == cs[0] && es[i].value == Obj(inner);
           assert Under(es[i].value, keys, v);
           Some(v)
         case None => ContainerHit(es, keys, cs[1..]))
      case _ => ContainerHit(es, keys, cs[1..])
  }

  /** Number of children of a container value. */
  function Width(j: Json): nat {
    match j
    case Arr(items) => |items|
    case Obj(es) => |es|
    case _ => 0
  }

  /** `_recursive_search(obj, candidate_keys)`. */
  function Search(j: Json, keys: seq<string>): (r: Option<Json>)
    ensures r.Some? ==> Truthy(r.value) && Under(j, keys, r.value)
    decreases j, 1
  {
    match j
    case Obj(es) =>
      (match DirectHit(es, keys)
       case Some(v) => Some(v)
       case None =>
         match ContainerHit(es, keys, Containers)
         case Some(v) => Some(v)
         case None => SearchIn(j, keys, 0))
    case Arr(_) => SearchIn(j, keys, 0)
    case _ => None
  }

  /** The children of `j` from the `i`-th on, in order: the first search
      that finds something gives the result. */
  function SearchIn(j: Json, keys: seq<string>, i: nat): (r: Option<Json>)
    requires j.Arr? || j.Obj?
    ensures r.Some? ==> Truthy(r.value) && Under(j, keys, r.value)
    decreases j, 0, Width(j) - i
  {
    if i >= Width(j) then None
    else
      var found := match j
        case Arr(items) => Search(items[i], keys)
        case Obj(es) => Search(es[i].value, keys);
      match found
      case Some(v) => Some(v)
      case None => SearchIn(j, keys, i + 1)
  }

  // ---------------------------------------------------------------------
  // Properties.

  /** The search misses nothing: when a truthy value is stored under one of
      the aliases anywhere in the tree, some value is found. */
  lemma {:induction false} SearchComplete(j: Json, keys: seq<string>, v: Json)
    requires Under(j, keys, v) && Truthy(v)
    ensures Search(j, keys).Some?
    decreases j, 1
  {
    match j
    case Arr(items) =>
      var c :| 0 <= c < |items| && Under(items[c], keys, v);
      SearchInComplete(j, keys, v, 0, c);
    case Obj(es) =>
      if exists k :: k in keys && Get(es, k) == Some(v) {
        var k :| k in keys && Get(es, k) == Some(v);
        DirectSome(es, keys, k);
      } else if DirectHit(es, keys).None? && ContainerHit(es, keys, Containers).None? {
        var c :| 0 <= c < |es| && Under(es[c].value, keys, v);
        SearchInComplete(j, keys, v, 0, c);
      }
  }

  lemma DirectSome(es: seq<Entry>, keys: seq<string>, k: string)
    requires k in keys && HasTruthy(es, k)
    ensures DirectHit(es, keys).Some?
  {
  }

  lemma {:induction false} SearchInComplete(j: Json, keys: seq<string>, v: Json, i: nat, c: nat)
    requires j.Arr? || j.Obj?
    requires i <= c < Width(j) && Truthy(v)
    requires match j
             case Arr(items) => Under(items[c], keys, v)
             case Obj(es) => Under(es[c].value, keys, v)
             case _ => false
    ensures SearchIn(j, keys, i).Some?
    decreases j, 0, c - i
  {
    var found := match j
      case Arr(items) => Search(items[i], keys)
      case Obj(es) => Search(es[i].value, keys);
    if i == c {
      match j
      case Arr(items) => SearchComplete(items[i], keys, v);
      case Obj(es) => SearchComplete(es[i].value, keys, v);
    } else if found.None? {
      SearchInComplete(j, keys, v, i + 1, c);
    }
  }

  /** An alias with a truthy value directly in the top object wins over
      everything nested, and the alias list's order decides between aliases. */
  lemma DirectWins(es: seq<Entry>, keys: seq<string>, i: nat)
    requires i < |keys| && HasTruthy(es, keys[i])
    requires forall k :: 0 <= k < i ==> !HasTruthy(es, keys[k])
    ensures Search(Obj(es), keys) == Get(es, keys[i])
  {
    DirectFirst(es, keys, i);
  }

  lemma {:induction false} DirectFirst(es: seq<Entry>, keys: seq<string>, i: nat)
    requires i < |keys| && HasTruthy(es, keys[i])
    requires forall k :: 0 <= k < i ==> !HasTruthy(es, keys[k])
    ensures DirectHit(es, keys) == Get(es, keys[i])
  {
    if i > 0 {
      DirectFirst(es, keys[1..], i - 1);
    }
  }

  /** With no alias in the top object, a wrapper object holding one wins over
      the full descent; earlier wrappers in `Containers` order come first. */
  lemma ContainerWins(es: seq<Entry>, keys: seq<string>, c: nat, inner: seq<Entry>)
    requires forall k :: k in keys ==> !HasTruthy(es, k)
    requires c < |Containers| && Get(es, Containers[c]) == Some(Obj(inner))
    requires DirectHit(inner, keys).Some?
    requires forall d :: 0 <= d < c ==> !WrapperHit(es, keys, Containers[d])
    ensures Search(Obj(es), keys) == DirectHit(inner, keys)
  {
    ContainerFirst(es, keys, Containers, c, inner);
  }

  /** `obj.get(c)` is an object that holds one of the aliases with a truthy value. */
  predicate WrapperHit(es: seq<Entry>, keys: seq<string>, c: string) {
    Get(es, c).Some? && Get(es, c).value.Obj? && DirectHit(Get(es, c).value.entries, keys).Some?
  }

  lemma {:induction false} ContainerFirst(es: seq<Entry>, keys: seq<string>, cs: seq<string>, c: nat, inner: seq<Entry>)
    requires c < |cs| && Get(es, cs[c]) == Some(Obj(inner)) && DirectHit(inner, keys).Some?
    requires forall d :: 0 <= d < c ==> !WrapperHit(es, keys, cs[d])
    ensures ContainerHit(es, keys, cs) == DirectHit(inner, keys)
  {
    if c > 0 {
      ContainerSkip(es, keys, cs);
      ContainerFirst(es, keys, cs[1..], c - 1, inner);
    }
  }

  lemma ContainerSkip(es: seq<Entry>, keys: seq<string>, cs: seq<string>)
    requires cs != [] && !WrapperHit(es, keys, cs[0])
    ensures ContainerHit(es, keys, cs) == ContainerHit(es, keys, cs[1..])
  {
  }

  /** Strings, numbers, booleans and `None` hold no fields. */
  lemma ScalarsHoldNothing(j: Json, keys: seq<string>)
    requires !j.Arr? && !j.Obj?
    ensures Search(j, keys).None?
  {
  }
}
