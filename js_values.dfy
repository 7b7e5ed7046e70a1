/**
 * The JavaScript values the exception filters read and write: what a
 * thrown value may hold, what a response body holds, and the conversions
 * and property reads the filters apply to them. Numbers are integers.
 */
module JsValues {
  import opened Wrappers
  import Text

  datatype JsValue =
    | Undefined
    | Null
    | Bool(b: bool)
    | Number(n: int)
    | Str(s: string)
    | List(items: seq<JsValue>)
    | Object(fields: map<string, JsValue>)

  /** `String(v)`, which is also what `${v}` writes in a template literal. */
  function ToJsString(v: JsValue): string
    decreases v, 1
  {
    match v
    case Undefined => "undefined"
    case Null => "null"
    case Bool(b) => if b then "true" else "false"
    case Number(n) => Text.IntToString(n)
    case Str(s) => s
    case List(items) => ListText(v, items)
    case Object(_) => "[object Object]"
  }

  /** `items.join(',')`, where null and undefined elements write nothing. */
  function ListText(v: JsValue, items: seq<JsValue>): string
    requires forall i :: 0 <= i < |items| ==> items[i] < v
    decreases v, 0, |items|
  {
    if items == [] then []
    else
      var first := if items[0].Undefined? || items[0].Null? then [] else ToJsString(items[0]);
      if |items| == 1 then first else first + "," + ListText(v, items[1..])
  }

  /** The error a property read on undefined or null throws. */
  datatype Crash = TypeError

  /** `obj?.[key]`: undefined when the object itself or the property is missing. */
  function Member(obj: Option<map<string, JsValue>>, key: string): (r: JsValue)
    ensures obj.Some? && key in obj.value ==> r == obj.value[key]
    ensures obj.None? || key !in obj.value ==> r == Undefined
  {
    if obj.Some? && key in obj.value then obj.value[key] else Undefined
  }

  /** `v[i]`: reading from undefined or null throws, anything else reads the element or gives undefined. */
  function Index(v: JsValue, i: nat): (r: Result<JsValue, Crash>)
    ensures r.Err? <==> v.Undefined? || v.Null?
    ensures v.List? && i < |v.items| ==> r == Ok(v.items[i])
    ensures v.Str? && i < |v.s| ==> r == Ok(Str([v.s[i]]))
  {
    match v
    case Undefined => Err(TypeError)
    case Null => Err(TypeError)
    case Str(s) => if i < |s| then Ok(Str([s[i]])) else Ok(Undefined)
    case List(items) => if i < |items| then Ok(items[i]) else Ok(Undefined)
    case Object(fields) =>
      var key := Text.IntToString(i);
      if key in fields then Ok(fields[key]) else Ok(Undefined)
    case _ => Ok(Undefined)
  }

  /** The properties `JSON.stringify` writes for an object: every one whose value is not undefined. */
  function Written(body: map<string, JsValue>): (w: map<string, JsValue>)
    ensures forall k :: k in w <==> k in body && body[k] != Undefined
    ensures forall k :: k in w ==> w[k] == body[k]
  {
    map k | k in body && body[k] != Undefined :: body[k]
  }

  /** Each string as a JavaScript string value. */
  function Strs(parts: seq<string>): (vs: seq<JsValue>)
    ensures |vs| == |parts|
    ensures forall i :: 0 <= i < |parts| ==> vs[i] == Str(parts[i])
  {
    if parts == [] then [] else [Str(parts[0])] + Strs(parts[1..])
  }

  /** The texts of a list of string values; other values are skipped. */
  function Texts(vs: seq<JsValue>): seq<string> {
    if vs == [] then []
    else (if vs[0].Str? then [vs[0].s] else []) + Texts(vs[1..])
  }

  /** Reading the texts back from string values gives the strings. */
  lemma {:induction false} TextsOfStrs(parts: seq<string>)
    ensures Texts(Strs(parts)) == parts
    decreases |parts|
  {
    if parts != [] {
      TextsOfStrs(parts[1..]);
      assert Strs(parts)[1..] == Strs(parts[1..]);
    }
  }

  /** `String` of an array of strings is the strings joined by ','. */
  lemma ToJsStringOfStrs(parts: seq<string>)
    ensures ToJsString(List(Strs(parts))) == Text.Join(parts, ",")
  {
    ListTextSuffix(List(Strs(parts)), Strs(parts), parts);
  }

  lemma {:induction false} ListTextSuffix(v: JsValue, vs: seq<JsValue>, parts: seq<string>)
    requires forall i :: 0 <= i < |vs| ==> vs[i] < v
    requires vs == Strs(parts)
    ensures ListText(v, vs) == Text.Join(parts, ",")
    decreases |parts|
  {
    if |parts| > 1 {
      assert vs[1..] == Strs(parts[1..]);
      ListTextSuffix(v, vs[1..], parts[1..]);
    }
  }
}
