/**
 * The HTTP exception filter: an `HttpException` is answered with its own
 * status; the body carries its message, and its stack outside
 * production. The timestamp is taken as a parameter.
 */
module HttpExceptionFilter {
  import opened Wrappers
  import opened JsValues
  import opened ExceptionText

  /** An `HttpException`: an `Error` that carries the status it is to be answered with. */
  datatype HttpException = HttpException(status: int, message: string, stack: Option<string>)

  /** The exception as the shared helpers see it: always an instance of `Error`. */
  function AsThrown(exception: HttpException): (t: Thrown)
    ensures t.ErrorInstance? && t.message == exception.message && t.stack == exception.stack
  {
    ErrorInstance(exception.message, exception.stack)
  }

  /** `logger.error(text, trace)`. */
  datatype LogCall = LogCall(text: string, trace: string)

  /** The status and body sent back, and the logger call made. */
  datatype Handled = Handled(status: int, body: map<string, JsValue>, log: LogCall)

  const BaseKeys: set<string> := {"status", "timestamp", "path", "statusCode", "message", "data"}

  /** The body's fixed part, without the stack. */
  function BaseBody(status: int, message: string, url: string, timestamp: string): (body: map<string, JsValue>)
    ensures body.Keys == BaseKeys
  {
    map[
      "status" := Bool(false),
      "timestamp" := Str(timestamp),
      "path" := Str(url),
      "statusCode" := Number(status),
      "message" := Str(message),
      "data" := Null]
  }

  /**
   * `catch`: the reply and the body's `statusCode` are the exception's own
   * status; the body holds the extracted message and, exactly outside
   * production, the extracted stack; the logger gets "message stack" with
   * the stack as the trace.
   */
  function Catch(exception: HttpException, env: Option<string>, url: string, timestamp: string): (h: Handled)
    ensures h.status == exception.status
    ensures h.body.Keys == BaseKeys + (if IsProduction(env) then {} else {"stack"})
    ensures h.body["statusCode"] == Number(exception.status)
    ensures h.body["status"] == Bool(false) && h.body["data"] == Null
    ensures h.body["path"] == Str(url) && h.body["timestamp"] == Str(timestamp)
    ensures h.body["message"] == Str(ExceptionMessage(AsThrown(exception)))
    ensures "stack" in h.body <==> !IsProduction(env)
    ensures "stack" in h.body ==> h.body["stack"] == Str(ExceptionStack(AsThrown(exception)))
    ensures h.log == LogCall(ExceptionMessage(AsThrown(exception)) + " " + ExceptionStack(AsThrown(exception)),
                             ExceptionStack(AsThrown(exception)))
  {
    var message := ExceptionMessage(AsThrown(exception));
    var stack := ExceptionStack(AsThrown(exception));
    var statusCode := exception.status;
    var isProduction := IsProduction(env);
    var base := BaseBody(statusCode, message, url, timestamp);
    var body := if isProduction then base else base["stack" := Str(stack)];
    Handled(statusCode, body, LogCall(message + " " + stack, stack))
  }

  /**
   * For an `HttpException` only the first rule of each helper can apply:
   * the client sees the exception's own message, and outside production its
   * stack, or "No stack trace available" when it has none.
   */
  lemma OwnMessageAndStack(exception: HttpException, env: Option<string>, url: string, timestamp: string)
    ensures Catch(exception, env, url, timestamp).body["message"] == Str(exception.message)
    ensures !IsProduction(env) && exception.stack.Some? && exception.stack.value != "" ==>
              Catch(exception, env, url, timestamp).body["stack"] == Str(exception.stack.value)
    ensures !IsProduction(env) && (exception.stack.None? || exception.stack.value == "") ==>
              Catch(exception, env, url, timestamp).body["stack"] == Str(NoStack)
    ensures Written(Catch(exception, env, url, timestamp).body) == Catch(exception, env, url, timestamp).body
  {
    var h := Catch(exception, env, url, timestamp);
    assert forall k :: k in h.body ==> h.body[k] != Undefined;
  }
}
