/** The last Express middleware: turns whatever error a route passed to
    `next` into the JSON reply `{status, message, err_stack}`. */
module ErrorMiddleware {
  import opened Outcomes

  const InternalServerError: int := 500
  const AdminMessage: string := "Please contact the ADMIN"

  datatype ErrorResponse = ErrorResponse(status: int, message: string, errStack: Failure)

  /** What goes on the wire: the HTTP status and the body sent with it. */
  datatype Reply = Reply(httpStatus: int, body: ErrorResponse)

  /** `err.statusCode` when it is present and truthy (a status of 0 is not). */
  predicate HasStatus(e: Failure) {
    e.Custom? && e.statusCode.Some? && e.statusCode.value != 0
  }

  /** `err.customMessage` when it is present and truthy (non-empty). */
  predicate HasMessage(e: Failure) {
    e.Custom? && e.customMessage != ""
  }

  /** The default error handler. A plain string or a library exception has
      neither property, so it becomes 500 with the fixed message. */
  function HandleError(e: Failure): (reply: Reply)
    ensures reply.httpStatus == reply.body.status
    ensures reply.body.errStack == e
    ensures reply.body.status != 0 && reply.body.message != ""
    ensures HasStatus(e) ==> reply.body.status == e.statusCode.value
    ensures !HasStatus(e) ==> reply.body.status == InternalServerError
    ensures HasMessage(e) ==> reply.body.message == e.customMessage
    ensures !HasMessage(e) ==> reply.body.message == AdminMessage
  {
    var status := if HasStatus(e) then e.statusCode.value else InternalServerError;
    var message := if HasMessage(e) then e.customMessage else AdminMessage;
    Reply(status, ErrorResponse(status, message, e))
  }

  /** Whatever in the reply is not the default came from the error: a status
      other than 500 is the error's own status code, and a message other than
      the fixed one is the error's own message. */
  lemma ReplyTracesError(e: Failure)
    ensures HandleError(e).httpStatus != InternalServerError ==> e.Custom? && e.statusCode == Some(HandleError(e).httpStatus)
    ensures HandleError(e).body.message != AdminMessage ==> e.Custom? && e.customMessage == HandleError(e).body.message
  {
  }

  /** A plain-string error, such as "User does not exist", reaches the client
      as 500 with the fixed message: its text is only in `err_stack`. */
  lemma PlainTextIsInternal(text: string)
    ensures HandleError(Text(text)) == Reply(500, ErrorResponse(500, AdminMessage, Text(text)))
  {
  }

  /** A status code of 0 is falsy and falls back to 500. */
  lemma ZeroStatusIsInternal(message: string)
    ensures HandleError(Custom(Some(0), message)).httpStatus == 500
  {
  }
}
