/**
 * The Prisma exception filter: a known Prisma error code is mapped to an
 * HTTP status and a message built from the error's `meta`; the body then
 * carries the stack split into lines, and that property is deleted in
 * production. The timestamp is taken as a parameter.
 */
module PrismaExceptionFilter {
  import opened Wrappers
  import Text
  import opened JsValues
  import opened ExceptionText

  /** A `PrismaClientKnownRequestError`. */
  datatype PrismaError = PrismaError(
    code: string,
    message: string,
    stack: Option<string>,
    meta: Option<map<string, JsValue>>,
    cause: JsValue)

  const Conflict := 409
  const BadRequest := 400
  const NotFound := 404
  const InternalServerError := 500

  /** The codes the filter knows: unique constraint, foreign key constraint, record not found. */
  predicate KnownCode(code: string) {
    code == "P2002" || code == "P2003" || code == "P2025"
  }

  /** The status the `switch` picks for a code. */
  function StatusFor(code: string): (status: int)
    ensures code == "P2002" ==> status == Conflict
    ensures code == "P2003" ==> status == BadRequest
    ensures code == "P2025" ==> status == NotFound
    ensures !KnownCode(code) <==> status == InternalServerError
  {
    match code
    case "P2002" => Conflict
    case "P2003" => BadRequest
    case "P2025" => NotFound
    case _ => InternalServerError
  }

  /**
   * The message the `switch` builds for a code: the first of the unique
   * constraint's `target` fields, or the model name. Reading `target[0]`
   * throws when `meta` or its `target` is missing or null.
   */
  function MessageFor(code: string, meta: Option<map<string, JsValue>>): Result<string, Crash> {
    match code
    case "P2002" =>
      var first :- Index(Member(meta, "target"), 0);
      Ok(ToJsString(first) + " already exists")
    case "P2003" => Ok(ToJsString(Member(meta, "modelName")) + " foreign key constraint could not be found")
    case "P2025" => Ok(ToJsString(Member(meta, "modelName")) + " data not found")
    case _ => Ok("Internal server error")
  }

  /** `exception.stack?.split('\n')`. */
  function StackTrace(stack: Option<string>): (v: JsValue)
    ensures stack.None? <==> v == Undefined
    ensures stack.Some? ==> v == List(Strs(Text.Split(stack.value, '\n')))
  {
    if stack.Some? then List(Strs(Text.Split(stack.value, '\n'))) else Undefined
  }

  /** The line logged for the error; a missing stack is written "undefined". */
  function LogLine(exception: PrismaError): string {
    "Prisma Exception: " + exception.code + " - " + exception.message + " " + exception.stack.GetOr("undefined")
  }

  /** The status and body sent back, and the line logged. */
  datatype Handled = Handled(status: int, body: map<string, JsValue>, log: string)

  const BodyKeys: set<string> := {"statusCode", "timestamp", "path", "message", "error", "data", "stackTrace"}

  /** The body as first built, with every property present. */
  function ErrorResponse(exception: PrismaError, status: int, message: string, url: string, timestamp: string)
    : (body: map<string, JsValue>)
    ensures body.Keys == BodyKeys
    ensures body["statusCode"] == Number(status) && body["message"] == Str(message)
    ensures body["path"] == Str(url) && body["timestamp"] == Str(timestamp)
    ensures body["error"] == exception.cause && body["data"] == Null
    ensures body["stackTrace"] == StackTrace(exception.stack)
  {
    map[
      "statusCode" := Number(status),
      "timestamp" := Str(timestamp),
      "path" := Str(url),
      "message" := Str(message),
      "error" := exception.cause,
      "data" := Null,
      "stackTrace" := StackTrace(exception.stack)]
  }

  /**
   * `catch`: builds the body for the mapped status and message, then deletes
   * `stackTrace` in production. A crash while reading `target` escapes the
   * filter before anything is logged or sent.
   */
  method Catch(exception: PrismaError, env: Option<string>, url: string, timestamp: string)
    returns (r: Result<Handled, Crash>)
    ensures r.Err? <==> MessageFor(exception.code, exception.meta).Err?
    ensures r.Ok? ==> r.value.status == StatusFor(exception.code)
    ensures r.Ok? ==> r.value.body.Keys == BodyKeys - (if IsProduction(env) then {"stackTrace"} else {})
    ensures r.Ok? ==> r.value.body["statusCode"] == Number(r.value.status)
    ensures r.Ok? ==> r.value.body["message"] == Str(MessageFor(exception.code, exception.meta).value)
    ensures r.Ok? ==> r.value.body["path"] == Str(url) && r.value.body["timestamp"] == Str(timestamp)
    ensures r.Ok? ==> r.value.body["error"] == exception.cause && r.value.body["data"] == Null
    ensures r.Ok? && !IsProduction(env) ==> r.value.body["stackTrace"] == StackTrace(exception.stack)
    ensures r.Ok? ==> r.value.log == LogLine(exception)
  {
    var isProduction := IsProduction(env);
    var status := StatusFor(exception.code);
    var outcome := MessageFor(exception.code, exception.meta);
    if outcome.Err? {
      return Err(outcome.error);
    }
    var message := outcome.value;
    var log := LogLine(exception);
    var errorResponse := ErrorResponse(exception, status, message, url, timestamp);
    if isProduction {
      errorResponse := errorResponse - {"stackTrace"};
    }
    r := Ok(Handled(status, errorResponse, log));
  }

  // ---------------------------------------------------------------------
  // Properties.

  /** Only a unique-constraint error without a readable `target` makes the filter throw. */
  lemma MessageCrashes(code: string, meta: Option<map<string, JsValue>>)
    ensures MessageFor(code, meta).Err? <==>
              code == "P2002" && (Member(meta, "target").Undefined? || Member(meta, "target").Null?)
  {
  }

  /** The unique-constraint message names the first target field; an empty target list reads "undefined". */
  lemma UniqueConstraintMessage(meta: map<string, JsValue>, fields: seq<string>)
    requires "target" in meta && meta["target"] == List(Strs(fields))
    ensures fields != [] ==> MessageFor("P2002", Some(meta)) == Ok(fields[0] + " already exists")
    ensures fields == [] ==> MessageFor("P2002", Some(meta)) == Ok("undefined already exists")
  {
    if fields == [] {
      assert Index(meta["target"], 0) == Ok(Undefined);
      assert "undefined" + " already exists" == "undefined already exists";
    }
  }

  /** The other two known codes name the model, or "undefined" when `meta` has no model name. */
  lemma ModelNameMessages(meta: Option<map<string, JsValue>>)
    ensures MessageFor("P2003", meta).Ok? && MessageFor("P2025", meta).Ok?
    ensures var name := if meta.Some? && "modelName" in meta.value then ToJsString(meta.value["modelName"]) else "undefined";
      MessageFor("P2003", meta).value == name + " foreign key constraint could not be found"
      && MessageFor("P2025", meta).value == name + " data not found"
  {
  }

  /** An unknown code never throws and always reads "Internal server error". */
  lemma UnknownCodeMessage(code: string, meta: Option<map<string, JsValue>>)
    requires !KnownCode(code)
    ensures MessageFor(code, meta) == Ok("Internal server error")
  {
  }

  /**
   * Outside production the lines in `stackTrace` joined with '\n' give back
   * the stack, and the property is written exactly when there is a stack;
   * in production it is never written.
   */
  lemma StackTraceLines(exception: PrismaError, env: Option<string>, body: map<string, JsValue>)
    requires body.Keys == BodyKeys - (if IsProduction(env) then {"stackTrace"} else {})
    requires !IsProduction(env) ==> body["stackTrace"] == StackTrace(exception.stack)
    ensures "stackTrace" in Written(body) <==> !IsProduction(env) && exception.stack.Some?
    ensures !IsProduction(env) && exception.stack.Some? ==>
              Text.Join(Texts(body["stackTrace"].items), "\n") == exception.stack.value
  {
    if !IsProduction(env) && exception.stack.Some? {
      var lines := Text.Split(exception.stack.value, '\n');
      TextsOfStrs(lines);
      Text.JoinSplit(exception.stack.value, '\n');
    }
  }
}
