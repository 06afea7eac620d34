/**
 * The JavaScript values the tracker handles: JSON-shaped data as it comes back
 * from the page collaborator, from JSON.parse and from the diff collaborator,
 * together with JavaScript's notion of truthiness and property access.
 */
module JsValues {

  datatype Option<+T> = None | Some(value: T)

  /** A JSON-shaped JavaScript value. `Null` stands for both `null` and
      `undefined`; numbers are integers (floating point is not modelled). */
  datatype Value =
    | Null
    | Bool(b: bool)
    | Num(n: int)
    | Str(s: string)
    | Arr(items: seq<Value>)
    | Obj(fields: map<string, Value>)

  /** JavaScript truthiness: `null`, `undefined`, `false`, `0` and `""` are
      falsy; every array and every object, even an empty one, is truthy. */
  predicate Truthy(v: Value)
  {
    match v
    case Null => false
    case Bool(b) => b
    case Num(n) => n != 0
    case Str(s) => s != []
    case Arr(_) => true
    case Obj(_) => true
  }

  /** The UTF-16 code units of a character, as JavaScript's string indexing,
      `split("")` and `charCodeAt` see them: one unit inside the Basic
      Multilingual Plane, a surrogate pair outside it. */
  function Utf16Units(c: char): (us: seq<nat>)
    ensures 1 <= |us| <= 2 && forall i :: 0 <= i < |us| ==> us[i] < 0x1_0000
    ensures |us| == 1 <==> c as int < 0x1_0000
    ensures |us| == 1 ==> us[0] == c as int
    ensures |us| == 2 ==> 0xD800 <= us[0] < 0xDC00 <= us[1] < 0xE000
  {
    var n := c as int;
    if n < 0x1_0000 then [n]
    else [0xD800 + (n - 0x1_0000) / 0x400, 0xDC00 + (n - 0x1_0000) % 0x400]
  }

  /** The UTF-16 code units of a string: what a JavaScript string really is. */
  function CodeUnits(s: string): seq<nat>
  {
    if s == [] then [] else Utf16Units(s[0]) + CodeUnits(s[1..])
  }

  /** Property access `v.name`: `undefined` (here `Null`) unless `v` is an
      object that has the property. */
  function Field(v: Value, name: string): Value
  {
    if v.Obj? && name in v.fields then v.fields[name] else Null
  }
}
