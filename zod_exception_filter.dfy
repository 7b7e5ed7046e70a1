/**
 * The Zod exception filter: a failed validation is answered with 400 and
 * one error entry per issue, whose path is the issue's path segments
 * joined with '.'; the stack property is deleted in production. The
 * timestamp is taken as a parameter.
 */
module ZodExceptionFilter {
  import opened Wrappers
  import Text
  import opened JsValues
  import opened ExceptionText

  /** One step of an issue's path: an object key or an array index. */
  datatype PathSegment = Key(name: string) | Index(position: nat)

  /** A validation issue, with the fields the filter reads. */
  datatype Issue = Issue(path: seq<PathSegment>, message: string)

  /** A `ZodError`: its issues and its stack. */
  datatype ZodError = ZodError(issues: seq<Issue>, stack: Option<string>)

  const BadRequest := 400

  /** How `join` writes a segment: a key as it is, an index in decimal. */
  function SegmentText(segment: PathSegment): string {
    match segment
    case Key(name) => name
    case Index(position) => Text.NatToString(position)
  }

  function SegmentTexts(path: seq<PathSegment>): (texts: seq<string>)
    ensures |texts| == |path|
    ensures forall i :: 0 <= i < |path| ==> texts[i] == SegmentText(path[i])
  {
    if path == [] then [] else [SegmentText(path[0])] + SegmentTexts(path[1..])
  }

  /** `error.path.join('.')`. */
  function JoinPath(path: seq<PathSegment>): string {
    Text.Join(SegmentTexts(path), ".")
  }

  /** `{path: error.path.join('.'), message: error.message}`. */
  function ErrorEntry(issue: Issue): JsValue {
    Object(map["path" := Str(JoinPath(issue.path)), "message" := Str(issue.message)])
  }

  /** `exception.issues.map(...)`: one entry per issue, in issue order. */
  function ErrorEntries(issues: seq<Issue>): (entries: seq<JsValue>)
    ensures |entries| == |issues|
    ensures forall i :: 0 <= i < |issues| ==> entries[i] == ErrorEntry(issues[i])
  {
    if issues == [] then [] else [ErrorEntry(issues[0])] + ErrorEntries(issues[1..])
  }

  /** The status and body sent back. */
  datatype Handled = Handled(status: int, body: map<string, JsValue>)

  const BodyKeys: set<string> := {"statusCode", "timestamp", "path", "errors", "message", "data", "stack"}

  /** The body as first built, with every property present. */
  function ErrorResponse(exception: ZodError, url: string, timestamp: string): (body: map<string, JsValue>)
    ensures body.Keys == BodyKeys
    ensures body["statusCode"] == Number(BadRequest) && body["errors"] == List(ErrorEntries(exception.issues))
    ensures body["path"] == Str(url) && body["timestamp"] == Str(timestamp)
    ensures body["message"] == Str("Validation failed") && body["data"] == Null
    ensures body["stack"] == (if exception.stack.Some? then Str(exception.stack.value) else Undefined)
  {
    map[
      "statusCode" := Number(BadRequest),
      "timestamp" := Str(timestamp),
      "path" := Str(url),
      "errors" := List(ErrorEntries(exception.issues)),
      "message" := Str("Validation failed"),
      "data" := Null,
      "stack" := if exception.stack.Some? then Str(exception.stack.value) else Undefined]
  }

  /**
   * `catch`: always 400, with one entry per issue, "Validation failed" and
   * null data; `stack` is deleted exactly in production.
   */
  method Catch(exception: ZodError, env: Option<string>, url: string, timestamp: string) returns (h: Handled)
    ensures h.body.Keys == BodyKeys - (if IsProduction(env) then {"stack"} else {})
    ensures h.status == 400 && h.body["statusCode"] == Number(400)
    ensures "stack" in h.body <==> !IsProduction(env)
    ensures h.body["errors"].List? && |h.body["errors"].items| == |exception.issues|
    ensures forall i :: 0 <= i < |exception.issues| ==>
              h.body["errors"].items[i] == Object(map["path" := Str(JoinPath(exception.issues[i].path)),
                                                      "message" := Str(exception.issues[i].message)])
    ensures h.body["message"] == Str("Validation failed") && h.body["data"] == Null
    ensures h.body["path"] == Str(url) && h.body["timestamp"] == Str(timestamp)
    ensures !IsProduction(env) ==> h.body["stack"] == (if exception.stack.Some? then Str(exception.stack.value) else Undefined)
  {
    var statusCode := BadRequest;
    var isProduction := IsProduction(env);
    var errorResponse := ErrorResponse(exception, url, timestamp);
    if isProduction {
      errorResponse := errorResponse - {"stack"};
    }
    h := Handled(statusCode, errorResponse);
  }

  // ---------------------------------------------------------------------
  // Properties.

  /** An index is written without a '.'. */
  lemma IndexTextHasNoDot(position: nat)
    ensures '.' !in SegmentText(Index(position))
  {
    Text.NatToStringWellFormed(position);
    var t := Text.NatToString(position);
    assert forall i :: 0 <= i < |t| ==> Text.IsDigit(t[i]);
  }

  /** Splitting a joined path on '.' gives back its segments, when no key holds a '.'. */
  lemma PathRoundTrip(path: seq<PathSegment>)
    requires |path| >= 1
    requires forall i :: 0 <= i < |path| ==> path[i].Key? ==> '.' !in path[i].name
    ensures Text.Split(JoinPath(path), '.') == SegmentTexts(path)
  {
    var texts := SegmentTexts(path);
    forall i | 0 <= i < |texts|
      ensures '.' !in texts[i]
    {
      if path[i].Index? {
        IndexTextHasNoDot(path[i].position);
      }
    }
    Text.SplitJoin(texts, '.');
  }

  /** A key that holds a '.' reads like two segments: the joined path cannot tell them apart. */
  lemma DottedKeyAmbiguous()
    ensures JoinPath([Key("a.b")]) == JoinPath([Key("a"), Key("b")])
  {
    assert SegmentTexts([Key("a"), Key("b")]) == ["a", "b"];
    assert Text.Join(["a", "b"], ".") == "a" + "." + Text.Join(["b"], ".");
  }

  /** `['items', 0, 'name']` is written "items.0.name". */
  lemma ItemsIndexName()
    ensures JoinPath([Key("items"), Index(0), Key("name")]) == "items.0.name"
  {
    var path := [Key("items"), Index(0), Key("name")];
    assert Text.NatToString(0) == "0";
    assert SegmentTexts(path) == ["items", "0", "name"];
    assert Text.Join(["items", "0", "name"], ".") == "items" + "." + ("0" + "." + "name") by {
      assert ["items", "0", "name"][1..] == ["0", "name"];
      assert ["0", "name"][1..] == ["name"];
    }
  }
}
