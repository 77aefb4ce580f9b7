/**
 * The JavaScript values that the target system's list endpoint can return, with the
 * three JavaScript operations the lookup applies to them: optional property access
 * (`v?.key`), truthiness (`if (v)`) and string conversion (`String(v)`).
 */
module Json {
  import opened Wrappers
  import Text

  datatype Value =
    | Null
    | Bool(b: bool)
    | Num(n: int)
    | Str(s: string)
    | Arr(elems: seq<Value>)
    | Obj(fields: map<string, Value>)

  /** `v?.key`: the property of an object, or None (undefined) for a missing key or a
      value that is not an object. */
  function Get(v: Value, key: string): (r: Option<Value>)
    ensures r.Some? <==> v.Obj? && key in v.fields
    ensures r.Some? ==> r.value == v.fields[key]
  {
    if v.Obj? && key in v.fields then Some(v.fields[key]) else None
  }

  /** `Array.isArray(v)` for a possibly undefined value. */
  predicate IsArray(v: Option<Value>) {
    v.Some? && v.value.Arr?
  }

  /** JavaScript truthiness: null, false, 0 and "" are falsy; arrays and objects are truthy. */
  function Truthy(v: Value): (b: bool)
    ensures v == Null ==> !b
    ensures v.Arr? || v.Obj? ==> b
  {
    match v
    case Null => false
    case Bool(b) => b
    case Num(n) => n != 0
    case Str(s) => s != []
    case Arr(_) => true
    case Obj(_) => true
  }

  /** `x ?? y`: the left operand unless it is null or undefined. */
  predicate Nullish(v: Option<Value>) {
    v.None? || v.value == Null
  }

  function IntString(n: int): (r: string)
    ensures r != []
  {
    if n < 0 then "-" + Text.Decimal(-n) else Text.Decimal(n)
  }

  /** `String(v)`. An array prints its elements separated by commas, with null elements
      printed as the empty string. */
  function JsString(v: Value): (r: string)
    ensures r == [] ==> v.Str? || v.Arr?
    decreases v
  {
    match v
    case Null => "null"
    case Bool(b) => if b then "true" else "false"
    case Num(n) => IntString(n)
    case Str(s) => s
    case Arr(elems) => JoinElements(elems)
    case Obj(_) => "[object Object]"
  }

  function JoinElements(elems: seq<Value>): (r: string)
    decreases elems
  {
    if elems == [] then ""
    else
      var last := elems[|elems| - 1];
      assert last in elems;
      var part := if last == Null then "" else JsString(last);
      if |elems| == 1 then part else JoinElements(elems[..|elems| - 1]) + "," + part
  }
}
