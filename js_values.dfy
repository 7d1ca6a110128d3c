/**
 * JavaScript scalar values, the conversions `Number(v)` and `String(v)`, the relational
 * comparison `<`, and plain objects as ordered key/value lists.
 */
module JsValues {
  import opened Wrappers
  import opened JsStrings
  import opened JsNumbers

  /** The `TypeError` JavaScript throws on a property read of `undefined` or a loop over a non-iterable. */
  datatype TypeError = TypeError

  /** A scalar JavaScript value; numbers are exact reals. */
  datatype Value = Undefined | Bool(b: bool) | Num(n: real) | Str(s: string)

  /** `Number(v)`; `None` is NaN. */
  function ToNumber(v: Value): Option<real> {
    match v
    case Undefined => None
    case Bool(b) => Some(if b then 1.0 else 0.0)
    case Num(n) => Some(n)
    case Str(s) => StringToNumber(s)
  }

  /** `String(v)`, also what a template literal and `encodeURIComponent` make of `v`. */
  function ToString(v: Value): string {
    match v
    case Undefined => "undefined"
    case Bool(b) => if b then "true" else "false"
    case Num(n) => NumberToString(n)
    case Str(s) => s
  }

  /**
   * `a < b`: two strings compare lexicographically; anything else compares as numbers,
   * and a comparison involving NaN is false.
   */
  predicate Less(a: Value, b: Value) {
    if a.Str? && b.Str? then LexLess(a.s, b.s)
    else
      match (ToNumber(a), ToNumber(b))
      case (Some(x), Some(y)) => x < y
      case _ => false
  }

  /**
   * A plain object: its own enumerable entries in insertion order, as
   * `Object.entries` lists them.
   */
  type Entries<V> = seq<(string, V)>

  function Keys<V>(e: Entries<V>): (ks: seq<string>)
    ensures |ks| == |e| && forall k | 0 <= k < |e| :: ks[k] == e[k].0
  {
    if e == [] then [] else [e[0].0] + Keys(e[1..])
  }

  /** Every key occurs once, as in every JavaScript object. */
  predicate UniqueKeys<V>(e: Entries<V>) {
    forall i, j | 0 <= i < j < |e| :: e[i].0 != e[j].0
  }

  /** Position of `key` in the entry list, or -1. */
  function KeyIndex<V>(e: Entries<V>, key: string): (r: int)
    ensures r == -1 <==> key !in Keys(e)
    ensures r != -1 ==> 0 <= r < |e| && e[r].0 == key && forall k | 0 <= k < r :: e[k].0 != key
  {
    if e == [] then -1
    else if e[0].0 == key then 0
    else
      var i := KeyIndex(e[1..], key);
      assert Keys(e) == [e[0].0] + Keys(e[1..]);
      if i == -1 then -1 else i + 1
  }

  /** Property read `obj[key]`; `None` is `undefined`. */
  function Lookup<V>(e: Entries<V>, key: string): Option<V> {
    var i := KeyIndex(e, key);
    if i == -1 then None else Some(e[i].1)
  }

  /** Property write `obj[key] = v`: an existing key keeps its place, a new one goes last. */
  function Put<V>(e: Entries<V>, key: string, v: V): Entries<V> {
    var i := KeyIndex(e, key);
    if i == -1 then e + [(key, v)] else e[i := (key, v)]
  }

  /** Spread `{...e, ...f}`: the properties of `f` written, in order, over a copy of `e`. */
  function Assign<V>(e: Entries<V>, f: Entries<V>): Entries<V>
    decreases |f|
  {
    if f == [] then e else Assign(Put(e, f[0].0, f[0].1), f[1..])
  }

  /** The first position holding `key` is the one `KeyIndex` finds. */
  lemma KeyIndexAt<V>(e: Entries<V>, key: string, r: nat)
    requires r < |e| && e[r].0 == key
    requires forall k | 0 <= k < r :: e[k].0 != key
    ensures KeyIndex(e, key) == r
  {
    assert Keys(e)[r] == key;
  }

  /** The property `key` of an object; `undefined` when it is missing. */
  function Get(e: Entries<Value>, key: string): Value {
    match Lookup(e, key)
    case Some(v) => v
    case None => Undefined
  }

  /** In a key-unique list, every key reads back its own value. */
  lemma LookupUnique<V>(e: Entries<V>, k: nat)
    requires UniqueKeys(e) && k < |e|
    ensures Lookup(e, e[k].0) == Some(e[k].1)
  {
    KeyIndexAt(e, e[k].0, k);
  }

  /** A key `KeyIndex` does not find is on no entry. */
  lemma KeyIndexMissing<V>(e: Entries<V>, key: string)
    requires KeyIndex(e, key) == -1
    ensures forall k | 0 <= k < |e| :: e[k].0 != key
  {
    forall k | 0 <= k < |e| ensures e[k].0 != key { assert Keys(e)[k] == e[k].0; }
  }

  /** After a write the key is found where it was, or last when it is new. */
  lemma KeyIndexPut<V>(e: Entries<V>, key: string, v: V)
    ensures var i := KeyIndex(e, key);
      KeyIndex(Put(e, key, v), key) == if i == -1 then |e| else i
  {
    var i := KeyIndex(e, key);
    if i == -1 {
      KeyIndexMissing(e, key);
      KeyIndexAt(Put(e, key, v), key, |e|);
    } else {
      KeyIndexAt(Put(e, key, v), key, i);
    }
  }

  /** A write leaves the position of every other key as it was. */
  lemma KeyIndexPutOther<V>(e: Entries<V>, key: string, v: V, other: string)
    requires other != key
    ensures KeyIndex(Put(e, key, v), other) == KeyIndex(e, other)
  {
    var p := Put(e, key, v);
    var j := KeyIndex(e, other);
    assert forall k | 0 <= k < |e| :: p[k].0 == e[k].0 || k == KeyIndex(e, key);
    if j == -1 {
      KeyIndexMissing(e, other);
      assert forall k | 0 <= k < |p| :: p[k].0 != other;
    } else {
      KeyIndexAt(p, other, j);
    }
  }

  /** After a write the key holds the written value and every other key is untouched. */
  lemma LookupPut<V>(e: Entries<V>, key: string, v: V, other: string)
    ensures Lookup(Put(e, key, v), key) == Some(v)
    ensures other != key ==> Lookup(Put(e, key, v), other) == Lookup(e, other)
  {
    KeyIndexPut(e, key, v);
    if other != key {
      KeyIndexPutOther(e, key, v, other);
    }
  }

  /** A write keeps the keys' order; a new key is appended. */
  lemma KeysPut<V>(e: Entries<V>, key: string, v: V)
    ensures Keys(Put(e, key, v)) == if key in Keys(e) then Keys(e) else Keys(e) + [key]
  {
  }

  /** After a write the keys are the old keys and the written one. */
  lemma HasKeyPut<V>(e: Entries<V>, key: string, v: V, other: string)
    ensures other in Keys(Put(e, key, v)) <==> other in Keys(e) || other == key
  {
    KeysPut(e, key, v);
    if key !in Keys(e) {
      assert Keys(e) + [key] == Keys(Put(e, key, v));
      assert (Keys(e) + [key])[..|Keys(e)|] == Keys(e);
    }
  }

  /** A write keeps the keys unique. */
  lemma PutUnique<V>(e: Entries<V>, key: string, v: V)
    requires UniqueKeys(e)
    ensures UniqueKeys(Put(e, key, v))
  {
    var i := KeyIndex(e, key);
    if i == -1 {
      assert forall k | 0 <= k < |e| :: e[k].0 != key by {
        forall k | 0 <= k < |e| ensures e[k].0 != key { assert Keys(e)[k] == e[k].0; }
      }
    }
  }

  /** Writing a new key to the end of a key-unique list only appends it. */
  lemma PutFresh<V>(e: Entries<V>, key: string, v: V)
    requires key !in Keys(e)
    ensures Put(e, key, v) == e + [(key, v)]
  {
  }
}
