/**
 * JSON values as JavaScript sees them after `JSON.parse`: objects keep their
 * keys in insertion order next to the key/value map.
 */
module Json {

  import opened Wrappers
  import opened Strings
  import Seqs
  import Numerals

  /** A parsed JSON value. Numbers are restricted to integers. */
  datatype Value =
    | Null
    | Bool(b: bool)
    | Num(n: int)
    | Str(s: string)
    | Arr(items: seq<Value>)
    | Obj(obj: Object)

  /** A JavaScript object: its own keys in insertion order and their values. */
  datatype Object = Object(keys: seq<string>, fields: map<string, Value>)
  {
    /** Every key is listed exactly once. */
    predicate Valid()
    {
      Seqs.Distinct(keys) && fields.Keys == set k | k in keys
    }

    /** `o[k]`, with `None` for `undefined`. */
    function Get(k: string): Option<Value>
    {
      if k in fields then Some(fields[k]) else None
    }

    /** `o[k] = v`: an existing key keeps its position, a new key goes last. */
    function Set(k: string, v: Value): (r: Object)
      ensures Valid() ==> r.Valid()
      ensures r.fields == fields[k := v]
      ensures k in fields ==> r.keys == keys
      ensures k !in fields ==> r.keys == keys + [k]
    {
      if k in fields then Object(keys, fields[k := v]) else Object(keys + [k], fields[k := v])
    }
  }

  const EmptyObject: Object := Object([], map[])

  /** The object with the given distinct keys, in order, each holding the value at its position. */
  function Zip(keys: seq<string>, values: seq<Value>): (o: Object)
    requires |keys| == |values| && Seqs.Distinct(keys)
    ensures o.Valid() && o.keys == keys
    ensures forall j :: 0 <= j < |keys| ==> keys[j] in o.fields && o.fields[keys[j]] == values[j]
  {
    var fields := map k | k in keys :: values[Seqs.FirstIndex(keys, k)];
    assert forall j :: 0 <= j < |keys| ==> Seqs.FirstIndex(keys, keys[j]) == j;
    var o := Object(keys, fields);
    assert fields.Keys == set k | k in keys;
    o
  }

  /** JavaScript truthiness: `null`, `false`, `0` and `""` are falsy. */
  predicate Truthy(v: Value)
  {
    match v
    case Null => false
    case Bool(b) => b
    case Num(n) => n != 0
    case Str(s) => s != []
    case Arr(_) => true
    case Obj(_) => true
  }

  /** Truthiness of a property read, where a missing property is `undefined`. */
  predicate TruthyProperty(v: Option<Value>)
  {
    v.Some? && Truthy(v.value)
  }

  /**
   * `String(v)`, as a template literal or a computed property key applies it:
   * array elements are joined with commas, `null` elements becoming empty.
   */
  function ToJsString(v: Value): string
    decreases v
  {
    match v
    case Null => "null"
    case Bool(b) => if b then "true" else "false"
    case Num(n) => Numerals.FromInt(n)
    case Str(s) => s
    case Arr(items) =>
      Join(seq(|items|, i requires 0 <= i < |items| =>
                 if items[i].Null? then "" else ToJsString(items[i])), ",")
    case Obj(_) => "[object Object]"
  }

  /** `String(x)` where `x` may be `undefined`. */
  function PropertyToJsString(v: Option<Value>): string
  {
    match v
    case None => "undefined"
    case Some(x) => ToJsString(x)
  }
}
