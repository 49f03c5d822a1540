/**
 * What the handlers share: document identifiers, HTTP responses, and the
 * outcome of a call into an external service (database, image store),
 * which the model receives as a parameter instead of performing it.
 */
module Http {

  /** A MongoDB ObjectId, compared by value (`toString()` equality in the handlers). */
  datatype ObjectId = ObjectId(hex: string)

  /** A status code with a JSON body. */
  datatype Response<B> = Response(status: nat, body: B)

  /** Whether one call into an external service resolves or throws (with the error's `message`). */
  datatype ServiceCall = Succeeds | Fails(message: string)

  /** `error.message || fallback`: the message an error handler reports. */
  function ErrorText(message: string, fallback: string): (text: string)
    requires fallback != ""
    ensures text != ""
    ensures message != "" ==> text == message
    ensures message == "" ==> text == fallback
  {
    if message != "" then message else fallback
  }
}
