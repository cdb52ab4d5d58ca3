/** The helpers of lib/utils.js: a promise-likeness test, an existential
    search, per-key mapping of an object, its value list, array copying and
    function wrapping. */
module Utils {
  import opened JsValues

  /** A plain JavaScript object seen through `Object.keys`: the own keys in
      enumeration order and the value stored under each. */
  datatype Dict<V> = Dict(keys: seq<string>, entries: map<string, V>) {
    /** What `Object.keys` guarantees: each key once, and exactly the
        object's own keys. */
    ghost predicate Valid() {
      && (forall i, j :: 0 <= i < j < |keys| ==> keys[i] != keys[j])
      && (forall k :: k in entries <==> k in keys)
    }
  }

  /** `isPromiseAlike(obj)`: false for `null` and `undefined`, otherwise an
      object whose `then` is a function. */
  predicate IsPromiseAlike(obj: Value) {
    if obj == Null || obj == Undefined then false
    else TypeOf(obj) == "object" && Get(obj, "then").Ok? && Get(obj, "then").value.Fn?
  }

  /** Which values are promise-like, by shape: the modelled promises and the
      plain objects carrying a function under `then`; functions never are. */
  lemma PromiseAlikeExactly(v: Value)
    ensures IsPromiseAlike(v) <==> v.Promise? || (v.Obj? && "then" in v.props && v.props["then"].Fn?)
    ensures v.Fn? || v.Undefined? || v.Null? ==> !IsPromiseAlike(v)
  {
  }

  /** Promise-like values are exactly the object-typed values that promise
      resolution would treat as thenables. */
  lemma PromiseAlikeIsObjectThenable(v: Value)
    ensures IsPromiseAlike(v) <==> HasCallableThen(v) && TypeOf(v) == "object"
  {
  }

  /** `anyApplies(array, predicate)`: a left-to-right search that returns at
      the first element satisfying `test`. `calls` counts how many times
      `test` was invoked. */
  method AnyApplies<T>(items: seq<T>, test: T -> bool) returns (found: bool, calls: nat)
    ensures found <==> exists i :: 0 <= i < |items| && test(items[i])
    ensures calls <= |items|
    ensures found ==> 0 < calls && test(items[calls - 1])
    ensures forall i :: 0 <= i < calls - 1 ==> !test(items[i])
    ensures !found ==> calls == |items|
  {
    for i := 0 to |items|
      invariant forall j :: 0 <= j < i ==> !test(items[j])
    {
      if test(items[i]) {
        return true, i + 1;
      }
    }
    return false, |items|;
  }

  /** `mapValues(obj, mapFn)`: a new object with the same keys, each mapped
      to `mapFn(obj[key], key, obj)`, built by a `reduce` that stores into an
      accumulator key by key. */
  method MapValues<V, W>(obj: Dict<V>, mapFn: (V, string, Dict<V>) -> W) returns (result: Dict<W>)
    requires obj.Valid()
    ensures result.Valid()
    ensures result.keys == obj.keys
    ensures result.entries.Keys == obj.entries.Keys
    ensures forall k :: k in obj.entries ==> result.entries[k] == mapFn(obj.entries[k], k, obj)
  {
    var acc: map<string, W> := map[];
    for i := 0 to |obj.keys|
      invariant forall k :: k in acc <==> k in obj.keys[..i]
      invariant forall k :: k in acc ==> k in obj.entries && acc[k] == mapFn(obj.entries[k], k, obj)
    {
      var key := obj.keys[i];
      acc := acc[key := mapFn(obj.entries[key], key, obj)];
    }
    assert obj.keys[..|obj.keys|] == obj.keys;
    result := Dict(obj.keys, acc);
  }

  /** `values(obj)`: the values, one per key, in key order. */
  function Values<V>(obj: Dict<V>): (r: seq<V>)
    requires forall k :: k in obj.keys ==> k in obj.entries
    ensures |r| == |obj.keys|
    ensures forall i :: 0 <= i < |r| ==> r[i] == obj.entries[obj.keys[i]]
    decreases |obj.keys|
  {
    if obj.keys == [] then []
    else [obj.entries[obj.keys[0]]] + Values(Dict(obj.keys[1..], obj.entries))
  }

  /** Every stored value appears in `values(obj)`, and nothing else does. */
  lemma ValuesCoverEntries<V>(obj: Dict<V>)
    requires obj.Valid()
    ensures forall v :: v in Values(obj) <==> v in obj.entries.Values
  {
    forall v | v in obj.entries.Values
      ensures v in Values(obj)
    {
      var k :| k in obj.entries && obj.entries[k] == v;
      EntryInValues(obj, k);
    }
    forall v | v in Values(obj)
      ensures v in obj.entries.Values
    {
      var i :| 0 <= i < |obj.keys| && Values(obj)[i] == v;
      assert obj.keys[i] in obj.entries;
    }
  }

  lemma EntryInValues<V>(obj: Dict<V>, k: string)
    requires obj.Valid() && k in obj.entries
    ensures obj.entries[k] in Values(obj)
  {
    var i :| 0 <= i < |obj.keys| && obj.keys[i] == k;
    assert Values(obj)[i] == obj.entries[k];
  }

  /** `toArray(arrayLike)`: a fresh array with the same elements in the same order. */
  method ToArray<T>(arrayLike: array<T>) returns (r: array<T>)
    ensures fresh(r)
    ensures r[..] == arrayLike[..]
  {
    r := new T[arrayLike.Length](i requires 0 <= i < arrayLike.Length reads arrayLike => arrayLike[i]);
  }

  /** `wrap(fn, wrapperFunction)`: a function that hands `fn` and its
      argument list to the wrapper. */
  function Wrap<F, A(!new), R>(fn: F, wrapperFunction: (F, seq<A>) -> R): (wrapped: seq<A> -> R)
    ensures forall args :: wrapped(args) == wrapperFunction(fn, args)
  {
    args => wrapperFunction(fn, args)
  }
}
