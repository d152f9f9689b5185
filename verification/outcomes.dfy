/** Optional values and the outcome of a call into code this model does not see
    (the PDF extractor, the language-model call, the document store). */
module Outcomes {

  /** A value that may be absent (JavaScript `undefined`). */
  datatype Option<+T> = None | Some(value: T) {

    /** The value, or `default` when absent (JavaScript `x ?? default`). */
    function GetOr(default: T): T {
      match this
      case Some(v) => v
      case None => default
    }
  }

  /** The result of an awaited foreign call: it either returns a value or throws
      an error whose `message` the handlers may forward to the client. */
  datatype Effect<+T> = Done(value: T) | Threw(message: string)
}
