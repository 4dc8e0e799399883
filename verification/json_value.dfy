/** The value `json.loads` hands back, and the few Python operations the
    pipeline applies to it (`get`, `len`, `in`, `[0]`, iteration over
    dictionaries). Each operation fails the way Python does when the value
    has the wrong type; the failure carries Python's message. */
module PyJson {
  import opened Common
  import opened Strings

  /** A parsed JSON document. Objects are Python dicts, keyed by strings. */
  datatype Json =
    | JNull
    | JBool(b: bool)
    | JInt(i: int)
    | JFloat(f: real)
    | JStr(s: string)
    | JArr(items: seq<Json>)
    | JObj(fields: map<string, Json>)

  /** Python's `type(v).__name__`. */
  function TypeName(v: Json): string {
    match v
    case JNull => "NoneType"
    case JBool(_) => "bool"
    case JInt(_) => "int"
    case JFloat(_) => "float"
    case JStr(_) => "str"
    case JArr(_) => "list"
    case JObj(_) => "dict"
  }

  /** The message of the `AttributeError` raised by `v.<attr>` on a value
      that lacks the attribute. */
  function NoAttribute(v: Json, attr: string): string {
    "'" + TypeName(v) + "' object has no attribute '" + attr + "'"
  }

  /** `v.get(key, default)`: only dicts have it. */
  function Get(v: Json, key: string, default: Json): (r: Result<Json>)
    ensures r.Ok? <==> v.JObj?
    ensures v.JObj? && key in v.fields ==> r == Ok(v.fields[key])
    ensures v.JObj? && key !in v.fields ==> r == Ok(default)
    ensures !v.JObj? ==> r == Err(NoAttribute(v, "get"))
  {
    match v
    case JObj(m) => Ok(if key in m then m[key] else default)
    case _ => Err(NoAttribute(v, "get"))
  }

  /** `len(v)`: defined on strings, lists and dicts. */
  function Len(v: Json): (r: Result<nat>)
    ensures r.Ok? <==> (v.JStr? || v.JArr? || v.JObj?)
  {
    match v
    case JStr(s) => Ok(|s|)
    case JArr(items) => Ok(|items|)
    case JObj(m) => Ok(|m|)
    case _ => Err("object of type '" + TypeName(v) + "' has no len()")
  }

  /** `needle in v` for a string needle: a substring test on strings, an
      element test on lists, a key test on dicts. */
  function In(needle: string, v: Json): (r: Result<bool>)
    ensures r.Ok? <==> (v.JStr? || v.JArr? || v.JObj?)
  {
    match v
    case JStr(s) => Ok(Contains(s, needle))
    case JArr(items) => Ok(JStr(needle) in items)
    case JObj(m) => Ok(needle in m)
    case _ => Err("argument of type '" + TypeName(v) + "' is not iterable")
  }

  /** `v[0]`. Strings give their first character, lists their first item;
      a dict has no key `0` (its keys are strings), so `KeyError(0)`. */
  function First(v: Json): (r: Result<Json>)
    ensures v.JArr? && |v.items| > 0 ==> r == Ok(v.items[0])
    ensures r.Ok? ==> (v.JArr? || v.JStr?)
  {
    match v
    case JStr(s) => if |s| > 0 then Ok(JStr([s[0]])) else Err("string index out of range")
    case JArr(items) => if |items| > 0 then Ok(items[0]) else Err("list index out of range")
    case JObj(_) => Err("0")
    case _ => Err("'" + TypeName(v) + "' object is not subscriptable")
  }

  /** The items of a list that are all dicts. */
  predicate AllObjects(items: seq<Json>) {
    forall i :: 0 <= i < |items| ==> items[i].JObj?
  }

  /** The index of the first item that is not a dict (`|items|` if none). */
  function FirstNonObject(items: seq<Json>): (k: nat)
    ensures k <= |items|
    ensures forall i :: 0 <= i < k ==> items[i].JObj?
    ensures k < |items| ==> !items[k].JObj?
  {
    if items == [] then 0
    else if !items[0].JObj? then 0
    else 1 + FirstNonObject(items[1..])
  }

  /** `for x in v: x.get(...)`: iterating `v` and calling `get` on every
      element. It succeeds exactly when `v` is a list of dicts, an empty
      string or an empty dict (a string yields one-character strings and a
      dict yields its string keys, neither of which has `get`). */
  function EachObject(v: Json): (r: Result<seq<map<string, Json>>>)
    ensures r.Ok? <==> (v.JArr? && AllObjects(v.items)) || v == JStr([]) || v == JObj(map[])
    ensures r.Ok? && v.JArr? ==>
      && |r.value| == |v.items|
      && forall i :: 0 <= i < |v.items| ==> v.items[i] == JObj(r.value[i])
    ensures r.Ok? && !v.JArr? ==> r.value == []
  {
    match v
    case JArr(items) =>
      var k := FirstNonObject(items);
      if k < |items| then Err(NoAttribute(items[k], "get"))
      else Ok(seq(|items|, i requires 0 <= i < |items| => items[i].fields))
    case JStr(s) => if s == [] then Ok([]) else Err(NoAttribute(JStr([s[0]]), "get"))
    case JObj(m) => if m == map[] then Ok([]) else Err(NoAttribute(JStr([]), "get"))
    case _ => Err("'" + TypeName(v) + "' object is not iterable")
  }
}
