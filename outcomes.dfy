/** The shape of every result the server passes around: `Result.ok(data)` or
    `Result.error(error)`, where the error is whatever JavaScript value the code
    returned or threw. */
module Outcomes {

  datatype Option<+T> = None | Some(value: T)

  /** The JavaScript values that travel as errors in this server.
      - `Text`: a plain string, as in `Result.error("User does not exist")`;
      - `Custom`: an object `{statusCode?, customMessage}` built by the server;
      - `Raw`: an exception thrown by a foreign library (the database driver, the
        S3 client), rendered as `detail`; it carries neither a `statusCode` nor a
        `customMessage` property. */
  datatype Failure =
    | Text(text: string)
    | Custom(statusCode: Option<int>, customMessage: string)
    | Raw(detail: string)

  datatype Result<+T> = Ok(value: T) | Err(error: Failure)

  /** The outcome of one call into a backend (database, S3): `None` when the call
      succeeds, `Some(d)` when it throws an error that renders as `d`. */
  type Fault = Option<string>

  /** `STATUS.BAD_REQUEST`, the status the server puts on the errors it builds
      for bad input. */
  const BadRequest: int := 400
}
