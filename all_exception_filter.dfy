/**
 * The catch-all exception filter: whatever was thrown is answered with a
 * 500 whose body carries the message read from it, and is logged with its
 * stack. The timestamp is taken as a parameter.
 */
module AllExceptionFilter {
  import opened JsValues
  import opened ExceptionText
  import Text

  const InternalServerError := 500

  /** The status and body sent back, and the line logged. */
  datatype Handled = Handled(status: int, body: map<string, JsValue>, log: string)

  /**
   * `catch`: the reply and its body always say 500, the body is the status
   * flag false, the time, the request path, the extracted message and null
   * data, with no property left undefined, and the log line names message,
   * status and stack.
   */
  function Catch(exception: Thrown, url: string, timestamp: string): (h: Handled)
    ensures h.status == 500
    ensures h.body.Keys == {"status", "timestamp", "path", "statusCode", "message", "data"}
    ensures h.body["statusCode"] == Number(h.status)
    ensures h.body["status"] == Bool(false) && h.body["data"] == Null
    ensures h.body["path"] == Str(url) && h.body["timestamp"] == Str(timestamp)
    ensures h.body["message"] == Str(ExceptionMessage(exception))
    ensures h.log == LogLine(ExceptionMessage(exception), h.status, ExceptionStack(exception))
    ensures Written(h.body) == h.body
  {
    var status := InternalServerError;
    var message := ExceptionMessage(exception);
    var stack := ExceptionStack(exception);
    var body := map[
      "status" := Bool(false),
      "timestamp" := Str(timestamp),
      "path" := Str(url),
      "statusCode" := Number(status),
      "message" := Str(message),
      "data" := Null];
    Handled(status, body, LogLine(message, status, stack))
  }

  /** The text logged for an exception. */
  function LogLine(message: string, status: int, stack: string): string {
    "Exception: " + message + ", Status: " + Text.IntToString(status) + ", Stack: " + stack
  }

  /** The logged line reads `Exception: <message>, Status: 500, Stack: <stack>`. */
  lemma LogLineText(message: string, stack: string)
    ensures LogLine(message, InternalServerError, stack) == "Exception: " + message + ", Status: 500, Stack: " + stack
  {
    assert Text.IntToString(500) == "500" by {
      assert Text.NatToString(50) == "50";
    }
  }
}
