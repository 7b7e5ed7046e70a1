/**
 * The two helpers the catch-all and HTTP exception filters share: the
 * message and the stack trace read from whatever was thrown, by ordered
 * rules that fall back to fixed texts.
 */
module ExceptionText {
  import opened Wrappers
  import opened JsValues

  /** What a filter may be handed: an instance of `Error`, or any other value. */
  datatype Thrown =
    | ErrorInstance(message: string, stack: Option<string>)
    | Value(v: JsValue)

  const UnknownMessage := "Unknown error occurred"
  const NoStack := "No stack trace available"

  /** `NODE_ENV === 'production'`, with a missing setting as undefined. */
  predicate IsProduction(env: Option<string>) {
    env == Some("production")
  }

  /** A truthy object that has a `message` property. */
  predicate HasMessage(v: JsValue) {
    v.Object? && "message" in v.fields
  }

  /**
   * `getExceptionMessage`, first match wins: an error gives its message, a
   * string gives itself, an object with `message` gives that property as a
   * string, and null, undefined, booleans, numbers, arrays and objects
   * without `message` give the fallback.
   */
  function ExceptionMessage(exception: Thrown): (m: string)
    ensures exception.ErrorInstance? ==> m == exception.message
    ensures exception.Value? && exception.v.Str? ==> m == exception.v.s
    ensures exception.Value? && HasMessage(exception.v) ==> m == ToJsString(exception.v.fields["message"])
    ensures exception.Value? && HasMessage(exception.v) && exception.v.fields["message"].Str? ==>
              m == exception.v.fields["message"].s
    ensures exception.Value? && !exception.v.Str? && !HasMessage(exception.v) ==> m == UnknownMessage
  {
    if exception.ErrorInstance? then exception.message
    else if exception.v.Str? then exception.v.s
    else if HasMessage(exception.v) then ToJsString(exception.v.fields["message"])
    else UnknownMessage
  }

  /** An error whose stack is a non-empty string. */
  predicate HasStack(exception: Thrown) {
    exception.ErrorInstance? && exception.stack.Some? && exception.stack.value != ""
  }

  /**
   * `getExceptionStack`: only an error with a non-empty stack gives its
   * stack; an empty or missing stack, or a thrown non-error, gives the
   * fallback. The result is never empty.
   */
  function ExceptionStack(exception: Thrown): (s: string)
    ensures HasStack(exception) ==> s == exception.stack.value
    ensures !HasStack(exception) ==> s == NoStack
    ensures s != ""
  {
    if HasStack(exception) then exception.stack.value else NoStack
  }
}
