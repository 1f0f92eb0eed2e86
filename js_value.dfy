/**
 * The JavaScript values the web front end handles: what JSON.parse
 * produces, plus `undefined` and `NaN`. The coercions and property accesses
 * the front end's expressions perform are written out as functions.
 */
module JsValue {
  import opened Wrappers
  import opened Text

  /** Numbers are the integers the game exchanges; objects map keys to values. */
  datatype Value =
    | Undefined
    | Null
    | Bool(b: bool)
    | Num(n: int)
    | NaN
    | Str(s: string)
    | Arr(items: seq<Value>)
    | Obj(fields: map<string, Value>)

  /** A thrown TypeError (reading a property of undefined, spreading a non-iterable). */
  datatype JsError = TypeError

  type Object = map<string, Value>

  /** `o.k`: the property, or undefined when it is absent. */
  function Get(o: Object, k: string): (v: Value)
    ensures k !in o ==> v == Undefined
    ensures k in o ==> v == o[k]
  {
    if k in o then o[k] else Undefined
  }

  /** Truthiness: undefined, null, false, 0, NaN and "" are falsy. */
  predicate Truthy(v: Value) {
    match v
    case Undefined => false
    case Null => false
    case Bool(b) => b
    case Num(n) => n != 0
    case NaN => false
    case Str(s) => s != ""
    case _ => true
  }

  /**
   * ToString: what `"" + v`, a template literal and a computed property key
   * produce. An array joins its elements' strings with commas, writing
   * null and undefined elements as empty.
   */
  function ToStr(v: Value): (s: string)
    ensures v.Num? ==> s == IntToString(v.n)
    ensures v.Str? ==> s == v.s
  {
    match v
    case Undefined => "undefined"
    case Null => "null"
    case Bool(b) => if b then "true" else "false"
    case Num(n) => IntToString(n)
    case NaN => "NaN"
    case Str(s) => s
    case Arr(items) => JoinItems(items)
    case Obj(_) => "[object Object]"
  }

  function JoinItems(items: seq<Value>): string
    decreases items
  {
    if |items| == 0 then ""
    else
      var first := if items[0].Undefined? || items[0].Null? then "" else ToStr(items[0]);
      if |items| == 1 then first else first + "," + JoinItems(items[1..])
  }

  /**
   * `v + 1`: a number is incremented; undefined and NaN give NaN; null and
   * booleans count as 0 and 1; strings, arrays and objects are converted to
   * a string and "1" is appended.
   */
  function PlusOne(v: Value): (r: Value)
    ensures v.Num? ==> r == Num(v.n + 1)
    ensures v.Undefined? ==> r == NaN
  {
    match v
    case Undefined => NaN
    case NaN => NaN
    case Null => Num(1)
    case Bool(b) => Num(if b then 2 else 1)
    case Num(n) => Num(n + 1)
    case _ => Str(ToStr(v) + "1")
  }

  /** The keys under which a value's own enumerable properties lie, with the values. */
  function IndexKeys(items: seq<Value>): (o: Object)
    ensures forall i :: 0 <= i < |items| ==> NatToString(i) in o && o[NatToString(i)] == items[i]
    ensures forall k :: k in o ==> exists i :: 0 <= i < |items| && k == NatToString(i)
  {
    map i | 0 <= i < |items| :: NatToString(i) := items[i]
  }

  /**
   * The properties `{...v}` copies: an object's own fields, the indexed
   * elements of an array and the characters of a string; nothing from
   * undefined, null, booleans and numbers.
   */
  function SpreadObject(v: Value): (o: Object)
    ensures v.Obj? ==> o == v.fields
    ensures v.Undefined? || v.Null? ==> o == map[]
  {
    match v
    case Obj(m) => m
    case Arr(items) => IndexKeys(items)
    case Str(s) => IndexKeys(seq(|s|, i requires 0 <= i < |s| => Str([s[i]])))
    case _ => map[]
  }

  /**
   * The elements `[...v]` produces: an array's items, a string's characters;
   * every other value is not iterable and throws.
   */
  function SpreadArray(v: Value): (r: Result<seq<Value>, JsError>)
    ensures v.Arr? ==> r == Ok(v.items)
    ensures v.Str? ==> r.Ok? && |r.value| == |v.s|
    ensures r.Err? <==> !(v.Arr? || v.Str?)
  {
    match v
    case Arr(items) => Ok(items)
    case Str(s) => Ok(seq(|s|, i requires 0 <= i < |s| => Str([s[i]])))
    case _ => Err(TypeError)
  }

  /**
   * `v[k]`: reading a property of undefined or null throws; an array or a
   * string answers its in-range numeric indices (and nothing else), an
   * object its own fields under the key's string form; other values have
   * no properties.
   */
  function Index(v: Value, k: Value): (r: Result<Value, JsError>)
    ensures r.Err? <==> v.Undefined? || v.Null?
    ensures v.Arr? && k.Num? && 0 <= k.n < |v.items| ==> r == Ok(v.items[k.n])
    ensures v.Obj? ==> r == Ok(Get(v.fields, ToStr(k)))
  {
    match v
    case Undefined => Err(TypeError)
    case Null => Err(TypeError)
    case Arr(items) =>
      if k.Num? && 0 <= k.n < |items| then Ok(items[k.n]) else Ok(Undefined)
    case Str(s) =>
      if k.Num? && 0 <= k.n < |s| then Ok(Str([s[k.n]])) else Ok(Undefined)
    case Obj(m) => Ok(Get(m, ToStr(k)))
    case _ => Ok(Undefined)
  }
}
